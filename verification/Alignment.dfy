/**
 Losses never shift later data in time.

 The counters in the headers wrap every second.  Give every frame its true,
 unwrapped index: the theorems say when the processor, which sees only the
 wrapped counters, puts every frame into the row of its true index.
 */
module Alignment {
  import opened Bytes
  import opened Frames
  import opened Earliest
  import opened Processor
  import Modular

  /** True indices of one stream's frames: they increase, and the headers carry them modulo 1000. */
  ghost predicate Indexes(frames: seq<bytes>, index: seq<nat>)
    requires Delivers(frames)
  {
    && |index| == |frames|
    && (forall n :: 0 <= n < |frames| ==> HeaderMs(frames[n]) == index[n] % CIRCLE)
    && (forall m, n :: 0 <= m < n < |index| ==> index[m] < index[n])
  }

  /** The stream never loses a second or more at a time. */
  ghost predicate ShortLosses(index: seq<nat>) {
    forall n :: 0 <= n < |index| - 1 ==> index[n + 1] <= index[n] + CIRCLE
  }

  /** Frame n is used in row k, and the recording has lasted that long as far as this stream goes. */
  ghost predicate UsedIn(frames: seq<bytes>, start: Ms, n: nat, k: nat)
    requires Delivers(frames)
  {
    && Held(frames, start, k) == n && Hits(frames, start, k)
    && forall j :: 0 <= j < k ==> !RunsOut(frames, start, j)
  }

  // ------------------------------------------------------------------
  // One stream
  // ------------------------------------------------------------------

  /** Header and counter agree exactly when the distance to the frame's true time is whole seconds. */
  lemma AgreeIffWholeSeconds(first: nat, t: nat, index: nat, start: Ms)
    requires start == first % CIRCLE && first + t <= index
    ensures index % CIRCLE == Current(start, t) <==> (index - first - t) % CIRCLE == 0
  {
    CurrentIsWrapped(start, t);
    Modular.ModAdd(first, t, CIRCLE);
    assert Current(start, t) == (first + t) % CIRCLE;
    WholeTurns(first + t, index);
  }

  lemma WholeTurns(a: nat, b: nat)
    requires a <= b
    ensures a % CIRCLE == b % CIRCLE <==> (b - a) % CIRCLE == 0
  {
  }

  /** A frame that is not used is held on to. */
  lemma {:induction false} HeldUntil(frames: seq<bytes>, start: Ms, k: nat, later: nat)
    requires Delivers(frames) && k <= later
    requires forall j :: k <= j < later ==> HeaderMs(frames[Held(frames, start, k)]) != Current(start, j)
    ensures Held(frames, start, later) == Held(frames, start, k)
    ensures forall j :: k <= j < later ==> Held(frames, start, j) == Held(frames, start, k)
    decreases later
  {
    if k < later {
      HeldUntil(frames, start, k, later - 1);
    }
  }

  /** The frame in hand is used after its distance from true time has shrunk to whole seconds. */
  lemma NextUse(frames: seq<bytes>, index: seq<nat>, first: nat, start: Ms, k: nat, wait: nat)
    requires Delivers(frames) && Indexes(frames, index) && start == first % CIRCLE
    requires var n := Held(frames, start, k); first + k <= index[n] && wait == (index[n] - first - k) % CIRCLE
    ensures var n := Held(frames, start, k);
            && Held(frames, start, k + wait) == n && Hits(frames, start, k + wait)
            && forall j :: k <= j < k + wait ==> Held(frames, start, j) == n && !Hits(frames, start, j)
  {
    var n := Held(frames, start, k);
    forall j | k <= j < k + wait
      ensures HeaderMs(frames[n]) != Current(start, j)
    {
      AgreeIffWholeSeconds(first, j, index[n], start);
      NotYetWhole(index[n] - first - k, j - k);
    }
    HeldUntil(frames, start, k, k + wait);
    AgreeIffWholeSeconds(first, k + wait, index[n], start);
    WaitIsWhole(index[n] - first - k);
  }

  lemma NotYetWhole(distance: nat, step: nat)
    requires step < distance % CIRCLE
    ensures step <= distance && (distance - step) % CIRCLE != 0
  {
  }

  lemma WaitIsWhole(distance: nat)
    ensures (distance - distance % CIRCLE) % CIRCLE == 0
  {
  }

  /** Frame n in hand in row k, with nothing run out before: the claim that goes through the whole stream. */
  ghost predicate Arrives(frames: seq<bytes>, start: Ms, n: nat, k: nat)
    requires Delivers(frames)
  {
    Held(frames, start, k) == n && forall j :: 0 <= j < k ==> !RunsOut(frames, start, j)
  }

  /** In hand early enough, but less than a second early: used exactly in its own row. */
  lemma UsedOnTime(frames: seq<bytes>, index: seq<nat>, first: nat, start: Ms, n: nat, k: nat)
    requires Delivers(frames) && Indexes(frames, index) && start == first % CIRCLE
    requires Arrives(frames, start, n, k) && first + k <= index[n] < first + k + CIRCLE
    ensures UsedIn(frames, start, n, index[n] - first)
  {
    NextUse(frames, index, first, start, k, index[n] - first - k);
  }

  /** After its use the next frame is in hand. */
  lemma NextArrives(frames: seq<bytes>, start: Ms, n: nat, k: nat)
    requires Delivers(frames) && UsedIn(frames, start, n, k) && n + 1 < |frames|
    ensures Arrives(frames, start, n + 1, k + 1)
  {
  }

  /** Every frame is used in its own row when no loss lasts longer than a second. */
  lemma {:induction false} EachUsedOnTime(frames: seq<bytes>, index: seq<nat>, first: nat, start: Ms, n: nat)
    requires Delivers(frames) && Indexes(frames, index) && ShortLosses(index)
    requires start == first % CIRCLE && first <= index[0] < first + CIRCLE && n < |frames|
    ensures first <= index[n] && UsedIn(frames, start, n, index[n] - first)
    decreases n
  {
    if n == 0 {
      UsedOnTime(frames, index, first, start, 0, 0);
    } else {
      EachUsedOnTime(frames, index, first, start, n - 1);
      NextArrives(frames, start, n - 1, index[n - 1] - first);
      UsedOnTime(frames, index, first, start, n, index[n - 1] - first + 1);
    }
  }

  lemma {:induction false} HeldOnlyAdvances(frames: seq<bytes>, start: Ms, k: nat, later: nat)
    requires Delivers(frames) && k <= later
    ensures Held(frames, start, k) <= Held(frames, start, later)
    decreases later
  {
    if k < later {
      HeldOnlyAdvances(frames, start, k, later - 1);
    }
  }

  /** A loss of more than a second brings the frame after it out too early: it is not used in its own row. */
  lemma LongLossShifts(frames: seq<bytes>, index: seq<nat>, first: nat, start: Ms, n: nat)
    requires Delivers(frames) && Indexes(frames, index) && start == first % CIRCLE
    requires n + 1 < |frames| && first <= index[n] && UsedIn(frames, start, n, index[n] - first)
    requires index[n] + CIRCLE < index[n + 1]
    ensures !UsedIn(frames, start, n + 1, index[n + 1] - first)
  {
    var k := index[n] - first + 1;
    NextArrives(frames, start, n, index[n] - first);
    var wait := (index[n + 1] - first - k) % CIRCLE;
    NextUse(frames, index, first, start, k, wait);
    if n + 2 < |frames| {
      assert Held(frames, start, k + wait + 1) == n + 2;
      HeldOnlyAdvances(frames, start, k + wait + 1, index[n + 1] - first);
    } else {
      assert RunsOut(frames, start, k + wait);
    }
  }

  /** Exactly when every frame of a stream ends up in the row of its true time. */
  lemma OnTimeIffShortLosses(frames: seq<bytes>, index: seq<nat>, first: nat, start: Ms)
    requires Delivers(frames) && Indexes(frames, index)
    requires start == first % CIRCLE && first <= index[0] < first + CIRCLE
    ensures ShortLosses(index) <==>
            forall n :: 0 <= n < |frames| ==> first <= index[n] && UsedIn(frames, start, n, index[n] - first)
  {
    if ShortLosses(index) {
      forall n | 0 <= n < |frames|
        ensures first <= index[n] && UsedIn(frames, start, n, index[n] - first)
      {
        EachUsedOnTime(frames, index, first, start, n);
      }
    } else {
      var n :| 0 <= n < |index| - 1 && index[n] + CIRCLE < index[n + 1];
      if first <= index[n] && UsedIn(frames, start, n, index[n] - first) {
        LongLossShifts(frames, index, first, start, n);
      }
    }
  }

  /** No frame is used in two rows. */
  lemma UsedOnce(frames: seq<bytes>, start: Ms, n: nat, k: nat, later: nat)
    requires Delivers(frames) && UsedIn(frames, start, n, k) && UsedIn(frames, start, n, later)
    ensures k == later
  {
    var a, b := if k < later then k else later, if k < later then later else k;
    if a < b {
      assert !RunsOut(frames, start, a);
      HeldOnlyAdvances(frames, start, a + 1, b);
    }
  }

  /** A frame that is no longer in hand was used in the row of its true index and in no other. */
  lemma UsedExactlyOnce(frames: seq<bytes>, index: seq<nat>, first: nat, start: Ms, k: nat, n: nat)
    requires Delivers(frames) && Indexes(frames, index) && ShortLosses(index)
    requires start == first % CIRCLE && first <= index[0] < first + CIRCLE && n < Held(frames, start, k)
    ensures first <= index[n] < first + k
    ensures forall row :: 0 <= row < k ==> (UsedIn(frames, start, n, row) <==> row == index[n] - first)
  {
    EachUsedOnTime(frames, index, first, start, n);
    var mine := index[n] - first;
    if k <= mine {
      HeldOnlyAdvances(frames, start, k, mine);
    }
    forall row | 0 <= row < k && UsedIn(frames, start, n, row)
      ensures row == mine
    {
      UsedOnce(frames, start, n, row, mine);
    }
  }

  /** What a stream puts into row k, told by true time alone. */
  lemma SlotByTrueTime(frames: seq<bytes>, index: seq<nat>, first: nat, start: Ms, k: nat)
    requires Delivers(frames) && Indexes(frames, index) && ShortLosses(index)
    requires start == first % CIRCLE && first <= index[0] < first + CIRCLE
    requires forall j :: 0 <= j < k ==> !RunsOut(frames, start, j)
    ensures forall n :: 0 <= n < |frames| && index[n] == first + k ==> SlotData(frames, start, k) == Decode(frames[n])
    ensures (forall n :: 0 <= n < |frames| ==> index[n] != first + k) ==> SlotData(frames, start, k) == Hole()
  {
    forall n | 0 <= n < |frames| && index[n] == first + k
      ensures SlotData(frames, start, k) == Decode(frames[n])
    {
      EachUsedOnTime(frames, index, first, start, n);
    }
    if Hits(frames, start, k) {
      var n := Held(frames, start, k);
      EachUsedOnTime(frames, index, first, start, n);
      UsedOnce(frames, start, n, index[n] - first, k);
    }
  }

  // ------------------------------------------------------------------
  // All four streams
  // ------------------------------------------------------------------

  ghost predicate AllIndexed(d: seq<seq<bytes>>, index: seq<seq<nat>>)
    requires AllDeliver(d)
  {
    |index| == STREAMS && forall i :: 0 <= i < STREAMS ==> Indexes(d[i], index[i]) && ShortLosses(index[i])
  }

  ghost function FirstIndices(index: seq<seq<nat>>): seq<nat>
    requires |index| == STREAMS && forall i :: 0 <= i < STREAMS ==> index[i] != []
  {
    [index[0][0], index[1][0], index[2][0], index[3][0]]
  }

  /**
   The streams start within a second, `first` being the true index of the earliest,
   with gaps between their starts smaller than what their span leaves of a second.
   */
  ghost predicate StartTogether(index: seq<seq<nat>>, first: nat)
    requires |index| == STREAMS && forall i :: 0 <= i < STREAMS ==> index[i] != []
  {
    WithinCircle(FirstIndices(index), first) && SmallGaps(FirstIndices(index), first)
  }

  lemma StartsAtFirst(d: seq<seq<bytes>>, index: seq<seq<nat>>, first: nat, start: Ms)
    requires AllDeliver(d) && AllIndexed(d, index) && StartTogether(index, first)
    requires IsEarliest(FirstCounters(d), start)
    ensures start == first % CIRCLE
    ensures forall i :: 0 <= i < STREAMS ==> first <= index[i][0] < first + CIRCLE
  {
    var times := FirstIndices(index);
    forall i | 0 <= i < STREAMS
      ensures FirstCounters(d)[i] == times[i] % CIRCLE && first <= times[i] < first + CIRCLE && times[i] == index[i][0]
    {
      assert times[i] in times;
    }
    ShortestCoverStartsFirst(FirstCounters(d), times, start, first);
  }

  /** Nothing has run out before row k. */
  lemma LastsForEach(d: seq<seq<bytes>>, start: Ms, k: nat, i: nat)
    requires AllDeliver(d) && Lasts(d, start, k) && i < STREAMS
    ensures forall j :: 0 <= j < k ==> !RunsOut(d[i], start, j)
  {
    forall j | 0 <= j < k
      ensures !RunsOut(d[i], start, j)
    {
      assert !Ends(d, start, j);
    }
  }

  /**
   Time alignment survives loss: until the recording ends, slot i of row k is
   stream i's frame of true index first + k if it delivered one, and all zeros
   otherwise.
   */
  lemma TimeAlignment(d: seq<seq<bytes>>, index: seq<seq<nat>>, first: nat, start: Ms, k: nat, i: nat)
    requires AllDeliver(d) && AllIndexed(d, index) && StartTogether(index, first)
    requires IsEarliest(FirstCounters(d), start) && Lasts(d, start, k) && i < STREAMS
    ensures var slot := Piece(RowAt(d, start, k).data, i);
            && (forall n :: 0 <= n < |d[i]| && index[i][n] == first + k ==> slot == Decode(d[i][n]))
            && ((forall n :: 0 <= n < |d[i]| ==> index[i][n] != first + k) ==> slot == Hole())
  {
    StartsAtFirst(d, index, first, start);
    LastsForEach(d, start, k, i);
    SlotByTrueTime(d[i], index[i], first, start, k);
    PiecesOfFour(SlotData(d[0], start, k), SlotData(d[1], start, k), SlotData(d[2], start, k), SlotData(d[3], start, k));
  }

  /** Every frame fetched and replaced by row k was used in exactly one row before k: the one of its true index. */
  lemma EachFrameOnce(d: seq<seq<bytes>>, index: seq<seq<nat>>, first: nat, start: Ms, k: nat, i: nat, n: nat)
    requires AllDeliver(d) && AllIndexed(d, index) && StartTogether(index, first)
    requires IsEarliest(FirstCounters(d), start) && Lasts(d, start, k) && i < STREAMS
    requires n < Held(d[i], start, k)
    ensures first <= index[i][n] < first + k
    ensures forall row :: 0 <= row < k ==> (UsedIn(d[i], start, n, row) <==> row == index[i][n] - first)
  {
    StartsAtFirst(d, index, first, start);
    UsedExactlyOnce(d[i], index[i], first, start, k, n);
  }

  /**
   What is written is what there was room for, in order: a row that is dropped
   does not shift the ones after it, which carry their own step as their stamp.
   */
  lemma {:induction false} KeptStepsAreOrdered(kept: seq<bool>)
    ensures forall i, j :: 0 <= i < j < |KeptSteps(kept)| ==> KeptSteps(kept)[i] < KeptSteps(kept)[j]
    ensures forall k: nat :: k in KeptSteps(kept) <==> k < |kept| && kept[k]
  {
    if kept != [] {
      KeptStepsAreOrdered(kept[..|kept| - 1]);
      var before := KeptSteps(kept[..|kept| - 1]);
      assert forall i :: 0 <= i < |before| ==> before[i] in before;
    }
  }
}
