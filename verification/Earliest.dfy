/**
 Which of several millisecond counters, all taken modulo 1000, came first.

 The counters lie on a circle.  The answer is the one that follows the largest
 gap; the theorems say that this is the start of the shortest arc covering them
 all, and exactly when that is the truly earliest one.
 */
module Earliest {
  import opened Modular

  const CIRCLE: nat := 1000

  type Ms = x: int | 0 <= x < 1000

  /** How far round the circle `to` comes after `from`. */
  function After(from: Ms, to: Ms): Ms {
    if from <= to then to - from else to - from + CIRCLE
  }

  /** The length of the arc that starts at `from` and covers every value. */
  ghost function Arc(values: seq<Ms>, from: Ms): Ms
    requires values != []
  {
    var n := |values| - 1;
    var last := After(from, values[n]);
    if n == 0 then last else
      var before := Arc(values[..n], from);
      if before < last then last else before
  }

  /** It reaches exactly as far as the value farthest round. */
  lemma {:induction false} ArcReaches(values: seq<Ms>, from: Ms) returns (farthest: nat)
    requires values != []
    ensures forall i :: 0 <= i < |values| ==> After(from, values[i]) <= Arc(values, from)
    ensures farthest < |values| && After(from, values[farthest]) == Arc(values, from)
  {
    var n := |values| - 1;
    farthest := n;
    if 0 < n {
      var before := values[..n];
      var f := ArcReaches(before, from);
      assert forall i :: 0 <= i < n ==> values[i] == before[i];
      if After(from, values[n]) <= Arc(before, from) {
        farthest := f;
      }
    }
  }

  /** Of all the arcs that start at a value and cover every value, none is shorter than the one from s. */
  ghost predicate ShortestCover(values: seq<Ms>, s: Ms) {
    && s in values
    && forall t :: t in values ==> Arc(values, s) <= Arc(values, t)
  }

  /** From a, the next value around the circle is b, `gap` on; a lone value meets itself a full circle on. */
  ghost predicate Gap(values: seq<Ms>, a: Ms, b: Ms, gap: int) {
    && a in values && b in values
    && 1 <= gap <= CIRCLE && (a + gap) % CIRCLE == b
    && forall v :: v in values ==> v == a || gap <= After(a, v)
  }

  /** A gap of this size ends at b. */
  ghost predicate EndsGap(values: seq<Ms>, b: Ms, gap: int) {
    exists a :: Gap(values, a, b, gap)
  }

  /** A shortest cover starts here, and a gap as wide as the rest of the circle ends here. */
  ghost predicate IsEarliest(values: seq<Ms>, s: Ms) {
    ShortestCover(values, s) && EndsGap(values, s, CIRCLE - Arc(values, s))
  }

  ghost predicate Sorted(a: seq<Ms>) {
    forall i, j :: 0 <= i < j < |a| ==> a[i] <= a[j]
  }

  // ------------------------------------------------------------------
  // qsort with compareMs, as an insertion sort
  // ------------------------------------------------------------------

  /** The first n values are sorted except that the one at k may be too small for its place. */
  ghost predicate SortedBut(a: seq<Ms>, n: nat, k: nat)
    requires k < n <= |a|
  {
    && (forall i, j :: 0 <= i < j < n && i != k && j != k ==> a[i] <= a[j])
    && (forall j :: k < j < n ==> a[k] <= a[j])
  }

  function Swapped(a: seq<Ms>, k: nat): seq<Ms>
    requires 0 < k < |a|
  {
    a[k := a[k - 1]][k - 1 := a[k]]
  }

  lemma SwapSettles(a: seq<Ms>, n: nat, k: nat)
    requires 0 < k < n <= |a| && SortedBut(a, n, k) && a[k] < a[k - 1]
    ensures SortedBut(Swapped(a, k), n, k - 1) && multiset(Swapped(a, k)) == multiset(a)
  {
  }

  /** Sink the value at n to its place among the sorted ones before it. */
  method Insert(streamMs: array<Ms>, n: nat)
    requires n < streamMs.Length && Sorted(streamMs[..n])
    modifies streamMs
    ensures Sorted(streamMs[..n + 1])
    ensures multiset(streamMs[..]) == multiset(old(streamMs[..]))
  {
    var k := n;
    assert SortedBut(streamMs[..], n + 1, k);
    while 0 < k && streamMs[k] < streamMs[k - 1]
      invariant 0 <= k <= n
      invariant SortedBut(streamMs[..], n + 1, k)
      invariant multiset(streamMs[..]) == multiset(old(streamMs[..]))
    {
      hide SortedBut;
      ghost var a := streamMs[..];
      SwapSettles(a, n + 1, k);
      streamMs[k], streamMs[k - 1] := streamMs[k - 1], streamMs[k];
      assert streamMs[..] == Swapped(a, k);
      k := k - 1;
    }
    InPlace(streamMs[..], n + 1, k);
  }

  lemma InPlace(a: seq<Ms>, n: nat, k: nat)
    requires k < n <= |a| && SortedBut(a, n, k) && (k == 0 || a[k - 1] <= a[k])
    ensures Sorted(a[..n])
  {
  }

  method SortAscending(streamMs: array<Ms>)
    modifies streamMs
    ensures Sorted(streamMs[..])
    ensures multiset(streamMs[..]) == multiset(old(streamMs[..]))
  {
    for n := 0 to streamMs.Length
      invariant Sorted(streamMs[..n])
      invariant multiset(streamMs[..]) == multiset(old(streamMs[..]))
    {
      Insert(streamMs, n);
    }
    assert streamMs[..streamMs.Length] == streamMs[..];
  }

  // ------------------------------------------------------------------
  // The gap after each sorted value
  // ------------------------------------------------------------------

  function GapAfter(a: seq<Ms>, i: nat): nat
    requires i < |a| && Sorted(a)
  {
    if i == |a| - 1 then CIRCLE - a[i] + a[0] else a[i + 1] - a[i]
  }

  function Follower(a: seq<Ms>, i: nat): Ms
    requires i < |a|
  {
    if i == |a| - 1 then a[0] else a[i + 1]
  }

  /** Starting just after a gap, the covering arc is what the gap leaves of the circle. */
  lemma ArcAfterGap(a: seq<Ms>, i: nat)
    requires Sorted(a) && i < |a| && 0 < GapAfter(a, i)
    ensures Arc(a, Follower(a, i)) == CIRCLE - GapAfter(a, i)
  {
    forall k | 0 <= k < |a|
      ensures After(Follower(a, i), a[k]) <= CIRCLE - GapAfter(a, i)
    {
      if i < |a| - 1 {
        assert k <= i ==> a[k] <= a[i];
        assert i + 1 <= k ==> a[i + 1] <= a[k];
      }
    }
    assert After(Follower(a, i), a[i]) == CIRCLE - GapAfter(a, i);
    var farthest := ArcReaches(a, Follower(a, i));
  }

  /** Every value has a different value, or itself, just before it on the circle. */
  lemma {:induction false} GapBefore(a: seq<Ms>, k: nat) returns (j: nat)
    requires Sorted(a) && k < |a|
    ensures j < |a| && 0 < GapAfter(a, j) && Follower(a, j) == a[k]
    decreases k
  {
    if k == 0 {
      j := |a| - 1;
    } else if a[k - 1] < a[k] {
      j := k - 1;
    } else {
      j := GapBefore(a, k - 1);
    }
  }

  /** The value after a largest gap starts a shortest cover. */
  lemma LargestGapIsShortestCover(a: seq<Ms>, i: nat)
    requires Sorted(a) && i < |a| && 0 < GapAfter(a, i)
    requires forall j :: 0 <= j < |a| ==> GapAfter(a, j) <= GapAfter(a, i)
    ensures ShortestCover(a, Follower(a, i))
    ensures Arc(a, Follower(a, i)) == CIRCLE - GapAfter(a, i)
    ensures Gap(a, a[i], Follower(a, i), GapAfter(a, i))
  {
    ArcAfterGap(a, i);
    forall t | t in a
      ensures Arc(a, Follower(a, i)) <= Arc(a, t)
    {
      var k :| 0 <= k < |a| && a[k] == t;
      var j := GapBefore(a, k);
      ArcAfterGap(a, j);
    }
    GapAfterIsGap(a, i);
  }

  lemma GapAfterIsGap(a: seq<Ms>, i: nat)
    requires Sorted(a) && i < |a| && 0 < GapAfter(a, i)
    ensures Gap(a, a[i], Follower(a, i), GapAfter(a, i))
  {
    forall v | v in a
      ensures v == a[i] || GapAfter(a, i) <= After(a[i], v)
    {
      var k :| 0 <= k < |a| && a[k] == v;
      if i < |a| - 1 {
        assert k < i ==> a[k] <= a[i];
        assert i + 1 <= k ==> a[i + 1] <= a[k];
      }
    }
  }

  /** Around the circle once: from b on to v, when b lies between a and v. */
  lemma TurnOnce(a: Ms, b: Ms, v: Ms, gap: int)
    requires 1 <= gap <= CIRCLE && (a + gap) % CIRCLE == b
    requires v == a || gap <= After(a, v)
    ensures After(b, v) <= CIRCLE - gap
  {
  }

  /** No gap is larger than what a shortest cover leaves of the circle. */
  lemma GapsFitBesideCover(values: seq<Ms>, s: Ms, a: Ms, b: Ms, gap: int)
    requires ShortestCover(values, s) && Gap(values, a, b, gap)
    ensures gap <= CIRCLE - Arc(values, s)
  {
    forall i | 0 <= i < |values|
      ensures After(b, values[i]) <= CIRCLE - gap
    {
      assert values[i] in values;
      TurnOnce(a, b, values[i], gap);
    }
    var farthest := ArcReaches(values, b);
    assert Arc(values, b) <= CIRCLE - gap;
  }

  method GetEarliestMs(streamMs: array<Ms>) returns (startMs: int)
    modifies streamMs
    ensures multiset(streamMs[..]) == multiset(old(streamMs[..]))
    ensures streamMs.Length == 0 ==> startMs == -1
    ensures streamMs.Length > 0 ==> 0 <= startMs < 1000 && IsEarliest(old(streamMs[..]), startMs)
    ensures streamMs.Length > 0 ==>
              forall w :: ShortestCover(old(streamMs[..]), w) ==> w == startMs || Precedes(old(streamMs[..]), startMs, w)
  {
    if streamMs.Length == 0 {
      return -1;
    }
    ghost var values := streamMs[..];
    if streamMs.Length == 1 {
      Settle(values, values, 0);
      return streamMs[0];
    }
    SortAscending(streamMs);
    ghost var best;
    startMs, best := AfterLargestGap(streamMs);
    Settle(streamMs[..], values, best);
    ghost var a := streamMs[..];
    forall w | ShortestCover(values, w)
      ensures w == startMs || Precedes(values, startMs, w)
    {
      FirstOfShortest(a, values, best, w);
    }
  }

  /** In the order in which covers of the same length are preferred: smaller starts first, but the smallest of all last. */
  ghost predicate Precedes(values: seq<Ms>, v: Ms, w: Ms) {
    (exists u :: u in values && u < v) && (v < w || forall u :: u in values ==> w <= u)
  }

  /** The first of the largest gaps gives the first of the shortest covers in that order. */
  lemma FirstOfShortest(a: seq<Ms>, values: seq<Ms>, best: nat, w: Ms)
    requires multiset(a) == multiset(values) && Sorted(a) && best < |a| && 0 < GapAfter(a, best)
    requires forall j :: 0 <= j < |a| ==> GapAfter(a, j) <= GapAfter(a, best)
    requires forall j :: 0 <= j < best ==> GapAfter(a, j) < GapAfter(a, best)
    requires ShortestCover(values, w)
    ensures w == Follower(a, best) || Precedes(values, Follower(a, best), w)
  {
    SameCover(values, a, w);
    SameMembers(a, values);
    var k :| 0 <= k < |a| && a[k] == w;
    var j := GapBefore(a, k);
    ArcAfterGap(a, j);
    ArcAfterGap(a, best);
    assert Follower(a, best) in a;
    if best < j {
      assert a[best] in values && a[best] < a[best + 1];
      if j < |a| - 1 {
        assert a[best + 1] <= a[j + 1];
      }
    }
  }

  /** What the sorted counters show holds of the counters as they came. */
  lemma Settle(a: seq<Ms>, values: seq<Ms>, i: nat)
    requires multiset(a) == multiset(values) && Sorted(a) && i < |a| && 0 < GapAfter(a, i)
    requires forall j :: 0 <= j < |a| ==> GapAfter(a, j) <= GapAfter(a, i)
    ensures IsEarliest(values, Follower(a, i))
  {
    LargestGapIsShortestCover(a, i);
    SameCover(a, values, Follower(a, i));
    SameGap(a, values, a[i], Follower(a, i), GapAfter(a, i));
  }

  /** The loop over the sorted counters. */
  method AfterLargestGap(streamMs: array<Ms>) returns (startMs: Ms, ghost best: nat)
    requires 0 < streamMs.Length && Sorted(streamMs[..])
    ensures best < streamMs.Length && startMs == Follower(streamMs[..], best)
    ensures 0 < GapAfter(streamMs[..], best)
    ensures forall j :: 0 <= j < streamMs.Length ==> GapAfter(streamMs[..], j) <= GapAfter(streamMs[..], best)
    ensures forall j :: 0 <= j < best ==> GapAfter(streamMs[..], j) < GapAfter(streamMs[..], best)
  {
    ghost var a := streamMs[..];
    best := 0;
    var maxGap := -1;
    startMs := streamMs[0];
    for i := 0 to streamMs.Length
      invariant i == 0 || (best < i && maxGap == GapAfter(a, best) && startMs == Follower(a, best))
      invariant i == 0 ==> maxGap == -1
      invariant forall j :: 0 <= j < i ==> GapAfter(a, j) <= maxGap
      invariant forall j :: 0 <= j < best && j < i ==> GapAfter(a, j) < maxGap
    {
      var gap, candidateStart;
      if i == streamMs.Length - 1 {
        gap := (CIRCLE - streamMs[i]) + streamMs[0];
        candidateStart := streamMs[0];
      } else {
        gap := streamMs[i + 1] - streamMs[i];
        candidateStart := streamMs[i + 1];
      }
      if gap > maxGap {
        maxGap := gap;
        startMs := candidateStart;
        best := i;
      }
    }
    assert GapAfter(a, |a| - 1) <= maxGap;
  }

  /** Nothing here depends on the order of the values. */
  lemma SameMembers(a: seq<Ms>, b: seq<Ms>)
    requires multiset(a) == multiset(b)
    ensures forall v :: v in a <==> v in b
  {
    forall v
      ensures v in a <==> v in b
    {
      assert v in a <==> v in multiset(a);
      assert v in b <==> v in multiset(b);
    }
  }

  lemma SameArc(a: seq<Ms>, b: seq<Ms>, from: Ms)
    requires a != [] && b != [] && forall v :: v in a <==> v in b
    ensures Arc(a, from) == Arc(b, from)
  {
    var i := ArcReaches(a, from);
    var j := ArcReaches(b, from);
    assert a[i] in b && b[j] in a;
  }

  lemma SameCover(a: seq<Ms>, b: seq<Ms>, s: Ms)
    requires multiset(a) == multiset(b) && ShortestCover(a, s)
    ensures ShortestCover(b, s) && Arc(b, s) == Arc(a, s)
  {
    SameMembers(a, b);
    forall t | t in b
      ensures Arc(b, t) == Arc(a, t)
    {
      SameArc(a, b, t);
    }
  }

  lemma SameGap(a: seq<Ms>, b: seq<Ms>, x: Ms, y: Ms, gap: int)
    requires multiset(a) == multiset(b) && Gap(a, x, y, gap)
    ensures Gap(b, x, y, gap)
  {
    SameMembers(a, b);
  }

  // ------------------------------------------------------------------
  // Back to true time
  // ------------------------------------------------------------------

  /** Counters read at the given true times. */
  ghost predicate CountersOf(values: seq<Ms>, times: seq<nat>) {
    |values| == |times| && forall i :: 0 <= i < |times| ==> values[i] == times[i] % CIRCLE
  }

  lemma AfterIsElapsed(t: nat, u: nat)
    requires t <= u < t + CIRCLE
    ensures After(t % CIRCLE, u % CIRCLE) == u - t
  {
    ModAddCases(t, u - t, CIRCLE);
  }

  /** All of them lie within one circle of the first. */
  ghost predicate WithinCircle(times: seq<nat>, first: nat) {
    first in times && forall t :: t in times ==> first <= t < first + CIRCLE
  }

  /** u is the next of the times after p. */
  ghost predicate Consecutive(times: seq<nat>, p: nat, u: nat) {
    p in times && u in times && p < u && forall t :: t in times ==> t <= p || u <= t
  }

  /** Each gap between consecutive times is smaller than what their whole span leaves of the circle. */
  ghost predicate SmallGaps(times: seq<nat>, first: nat) {
    forall p: nat, u: nat, last: nat :: Consecutive(times, p, u) && last in times ==> u - p < CIRCLE - (last - first)
  }

  lemma CounterOf(values: seq<Ms>, times: seq<nat>, t: nat)
    requires CountersOf(values, times) && t in times
    ensures t % CIRCLE in values
  {
    var k :| 0 <= k < |times| && times[k] == t;
    assert values[k] == t % CIRCLE;
  }

  /** From the first time the cover is the span. */
  lemma ArcFromFirst(values: seq<Ms>, times: seq<nat>, first: nat) returns (last: nat)
    requires CountersOf(values, times) && WithinCircle(times, first)
    ensures last in times && Arc(values, first % CIRCLE) == last - first && forall t :: t in times ==> t <= last
  {
    var e := first % CIRCLE;
    forall i | 0 <= i < |times|
      ensures After(e, values[i]) == times[i] - first
    {
      assert times[i] in times;
      AfterIsElapsed(first, times[i]);
    }
    var k := ArcReaches(values, e);
    last := times[k];
  }

  /** How far a time comes after u, going round if need be. */
  lemma RoundFrom(u: nat, t: nat, first: nat)
    requires first <= t < first + CIRCLE && first <= u < first + CIRCLE
    ensures After(u % CIRCLE, t % CIRCLE) == if u <= t then t - u else t + CIRCLE - u
  {
    AfterIsElapsed(u, if u <= t then t else t + CIRCLE);
  }

  /** From any other time it goes all the way round to the time before. */
  lemma ArcFromOther(values: seq<Ms>, times: seq<nat>, first: nat, p: nat, u: nat)
    requires CountersOf(values, times) && WithinCircle(times, first) && Consecutive(times, p, u)
    ensures Arc(values, u % CIRCLE) == CIRCLE - (u - p)
  {
    var e := u % CIRCLE;
    forall i | 0 <= i < |times|
      ensures After(e, values[i]) <= CIRCLE - (u - p)
      ensures times[i] == p ==> After(e, values[i]) == CIRCLE - (u - p)
    {
      assert times[i] in times;
      RoundFrom(u, times[i], first);
    }
    var j :| 0 <= j < |times| && times[j] == p;
    var k := ArcReaches(values, e);
    assert After(e, values[j]) <= After(e, values[k]);
  }

  /** The last of the times before u. */
  lemma {:induction false} TimeBefore(times: seq<nat>, first: nat, u: nat) returns (p: nat)
    requires first in times && first < u
    ensures p in times && p < u && forall t :: t in times ==> t <= p || u <= t
    decreases |times|
  {
    var n := |times| - 1;
    assert times == times[..n] + [times[n]];
    p := times[n];
    if q: nat :| q in times[..n] && q < u {
      var before := TimeBefore(times[..n], q, u);
      if !(before < p < u) {
        p := before;
      }
    } else {
      assert first == p;
    }
  }

  /** Some cover is shortest. */
  lemma {:induction false} SomeShortest(values: seq<Ms>, some: seq<Ms>) returns (s: Ms)
    requires some != [] && forall t :: t in some ==> t in values
    ensures s in some && values != [] && forall t :: t in some ==> Arc(values, s) <= Arc(values, t)
    decreases |some|
  {
    var n := |some| - 1;
    assert some[n] in values;
    s := some[n];
    if n > 0 {
      var before := SomeShortest(values, some[..n]);
      if Arc(values, before) <= Arc(values, s) {
        s := before;
      }
    }
  }

  /** Times in one circle with the same counter are the same. */
  lemma SameCounter(t: nat, u: nat)
    requires t <= u < t + CIRCLE && t % CIRCLE == u % CIRCLE
    ensures t == u
  {
    AfterIsElapsed(t, u);
  }

  /** If gaps are small, the shortest cover starts at the first time. */
  lemma ShortestCoverStartsFirst(values: seq<Ms>, times: seq<nat>, s: Ms, first: nat)
    requires CountersOf(values, times) && ShortestCover(values, s)
    requires WithinCircle(times, first) && SmallGaps(times, first)
    ensures s == first % CIRCLE
  {
    var k :| 0 <= k < |values| && values[k] == s;
    var u := times[k];
    assert u in times;
    if u != first {
      var p := TimeBefore(times, first, u);
      assert Consecutive(times, p, u);
      ArcFromOther(values, times, first, p, u);
      var last := ArcFromFirst(values, times, first);
      CounterOf(values, times, first);
    }
  }

  /**
   With all true times within one circle of the first, every shortest cover starts
   at the first one if and only if each gap between consecutive times is smaller
   than what their span leaves of the circle.
   */
  lemma StartsFirstIffSmallGaps(values: seq<Ms>, times: seq<nat>, first: nat)
    requires CountersOf(values, times) && WithinCircle(times, first)
    ensures (forall s :: ShortestCover(values, s) ==> s == first % CIRCLE) <==> SmallGaps(times, first)
  {
    if SmallGaps(times, first) {
      forall s | ShortestCover(values, s)
        ensures s == first % CIRCLE
      {
        ShortestCoverStartsFirst(values, times, s, first);
      }
    } else {
      var p: nat, u: nat, w: nat :| Consecutive(times, p, u) && w in times && CIRCLE - (w - first) <= u - p;
      LargeGapHidesFirst(values, times, first, p, u, w);
    }
  }

  /** After a gap as large as that, some shortest cover starts elsewhere. */
  lemma LargeGapHidesFirst(values: seq<Ms>, times: seq<nat>, first: nat, p: nat, u: nat, w: nat)
    requires CountersOf(values, times) && WithinCircle(times, first)
    requires Consecutive(times, p, u) && w in times && CIRCLE - (w - first) <= u - p
    ensures exists s :: ShortestCover(values, s) && s != first % CIRCLE
  {
    ArcFromOther(values, times, first, p, u);
    var last := ArcFromFirst(values, times, first);
    CounterOf(values, times, u);
    var s := SomeShortest(values, values);
    assert ShortestCover(values, s);
    if s == first % CIRCLE {
      if u % CIRCLE == first % CIRCLE {
        SameCounter(first, u);
      }
      assert ShortestCover(values, u % CIRCLE);
    }
  }

  /** Times less than half a circle apart have small gaps. */
  lemma HalfCircleIsEnough(times: seq<nat>, first: nat)
    requires first in times && forall t :: t in times ==> first <= t < first + 500
    ensures WithinCircle(times, first) && SmallGaps(times, first)
  {
  }
}
