/**
 The four states of a thread that follows recordings, as the sender and the file
 consumer do: what each pass of its loop sees under the lock, and how much it
 takes out of the ring then.
 */
module Watching {
  import opened Ring
  import opened Session

  const READ_SIZE: nat := 15000
  const DRAIN_CHUNK: nat := 1000

  /** What a pass sees: with no recording under way, with one, and with one that is over. */
  datatype Sight<I> =
    | AtRest(active: bool, info: I)   // the flag, and when it is up, the information on the recording
    | Awake(looks: seq<Look>)         // the checks of the wait for a full read
    | Ending(written: seq<nat>)       // how long the log was at each check of the drain

  /** One pass: where the reader stood, how long the log was, and the pieces that were read. */
  datatype Pass<I> = Pass(from: nat, had: nat, sight: Sight<I>, sizes: seq<nat>)

  lemma RingIsThere(s: BufferSession)
    requires s.Valid()
    ensures 2 <= s.ring.data.Length
  {
  }

  function Sum(sizes: seq<nat>): nat {
    if sizes == [] then 0 else Sum(sizes[..|sizes| - 1]) + sizes[|sizes| - 1]
  }

  lemma SumSnoc(sizes: seq<nat>, n: nat)
    ensures Sum(sizes + [n]) == Sum(sizes) + n
  {
    assert (sizes + [n])[..|sizes|] == sizes;
  }

  // ------------------------------------------------------------------
  // What is taken
  // ------------------------------------------------------------------

  /** A piece of the drain: at most a chunk of what there is, as far as it lies in one piece. */
  ghost predicate IsChunk(len: nat, at: nat, written: nat, size: nat)
    requires 0 < len
  {
    at < written && size == OnePiece(len, at, if written - at > 1000 then 1000 else written - at)
  }

  /** The drain: a chunk after each check but the last. */
  ghost predicate Drains(len: nat, from: nat, had: nat, written: seq<nat>, sizes: seq<nat>)
    requires 0 < len
  {
    && |written| == |sizes| + 1
    && (forall k :: 0 <= k < |written| ==> had <= written[k])
    && (forall k :: 0 <= k < |sizes| ==> IsChunk(len, from + Sum(sizes[..k]), written[k], sizes[k]))
  }

  /** The last check of the drain found nothing left. */
  ghost predicate CaughtUp<I>(p: Pass<I>) {
    p.sight.Ending? && p.sight.written != [] && p.sight.written[|p.sight.written| - 1] == p.from + Sum(p.sizes)
  }

  ghost predicate Took<I>(len: nat, p: Pass<I>)
    requires 0 < len
  {
    match p.sight
    case AtRest(_, _) => p.sizes == []
    case Awake(looks) =>
      && Waited(looks, 15000, p.had - p.from)
      && var last := looks[|looks| - 1];
         p.sizes == if last.active && 15000 <= last.available then [OnePiece(len, p.from, 15000)] else []
    case Ending(written) => Drains(len, p.from, p.had, written, p.sizes)
  }

  /** A pass counts, and so does each wake-up of its wait, and each chunk of its drain. */
  ghost function Spent<I>(p: Pass<I>): nat {
    match p.sight
    case AtRest(_, _) => 1
    case Awake(looks) => |looks|
    case Ending(_) => 1 + |p.sizes|
  }

  lemma FirstCheck(len: nat, from: nat, had: nat, now: nat)
    requires 0 < len && had <= now
    ensures Drains(len, from, had, [now], [])
  {
  }

  lemma NextCheck(len: nat, from: nat, had: nat, written: seq<nat>, sizes: seq<nat>, size: nat, now: nat)
    requires 0 < len && Drains(len, from, had, written, sizes) && had <= now
    requires IsChunk(len, from + Sum(sizes), written[|sizes|], size)
    ensures Drains(len, from, had, written + [now], sizes + [size])
  {
    hide IsChunk;
    hide Sum;
    var sizes', written' := sizes + [size], written + [now];
    assert sizes'[..|sizes|] == sizes;
    forall k | 0 <= k < |sizes'|
      ensures IsChunk(len, from + Sum(sizes'[..k]), written'[k], sizes'[k])
    {
      if k < |sizes| {
        assert sizes'[..k] == sizes[..k];
        assert IsChunk(len, from + Sum(sizes[..k]), written[k], sizes[k]);
      }
    }
  }

  // ------------------------------------------------------------------
  // Pass after pass
  // ------------------------------------------------------------------

  /** Is a recording under way after this pass? */
  predicate GoesOn<I>(p: Pass<I>) {
    match p.sight
    case AtRest(active, _) => active
    case Awake(_) => true
    case Ending(_) => false
  }

  predicate Under<I>(passes: seq<Pass<I>>) {
    passes != [] && GoesOn(passes[|passes| - 1])
  }

  /** Where the reader stands after these passes. */
  function Reached<I>(start: nat, passes: seq<Pass<I>>): nat {
    if passes == [] then start else passes[|passes| - 1].from + Sum(passes[|passes| - 1].sizes)
  }

  ghost predicate Follows<I>(len: nat, start: nat, before: seq<Pass<I>>, p: Pass<I>)
    requires 0 < len
  {
    p.from == Reached(start, before) && (p.sight.AtRest? <==> !Under(before)) && Took(len, p)
  }

  /** Each pass goes on from the one before it and takes what it should on what it saw. */
  ghost predicate Watched<I>(len: nat, start: nat, passes: seq<Pass<I>>)
    requires 0 < len
  {
    forall k :: 0 <= k < |passes| ==> Follows(len, start, passes[..k], passes[k])
  }

  ghost function AllSpent<I>(passes: seq<Pass<I>>): nat {
    if passes == [] then 0 else AllSpent(passes[..|passes| - 1]) + Spent(passes[|passes| - 1])
  }

  lemma NoPasses<I>(len: nat, start: nat)
    requires 0 < len
    ensures Watched<I>(len, start, []) && AllSpent<I>([]) == 0 && !Under<I>([]) && Reached<I>(start, []) == start
  {
  }

  lemma WatchedMore<I>(len: nat, start: nat, passes: seq<Pass<I>>, p: Pass<I>)
    requires 0 < len && Watched(len, start, passes) && Follows(len, start, passes, p)
    ensures Watched(len, start, passes + [p]) && AllSpent(passes + [p]) == AllSpent(passes) + Spent(p)
    ensures Reached(start, passes + [p]) == p.from + Sum(p.sizes) && Under(passes + [p]) == GoesOn(p)
  {
    hide Follows;
    var passes' := passes + [p];
    forall k | 0 <= k < |passes'|
      ensures Follows(len, start, passes'[..k], passes'[k])
    {
      assert passes'[..k] == passes[..k];
      assert passes[..|passes|] == passes;
    }
    assert passes'[..|passes|] == passes;
  }

  lemma {:induction false} ReachedRises<I>(len: nat, start: nat, passes: seq<Pass<I>>, k: nat)
    requires 0 < len && Watched(len, start, passes) && k <= |passes|
    ensures Reached(start, passes[..k]) <= Reached(start, passes)
    decreases |passes| - k
  {
    hide Took;
    if k == |passes| {
      assert passes[..k] == passes;
    } else {
      ReachedRises(len, start, passes, k + 1);
      assert Follows(len, start, passes[..k], passes[k]);
    }
  }

  /** When a drain has caught up, the reader has read all that the log held at its last check, which was all it held before. */
  lemma DrainReadsAll<I>(len: nat, start: nat, passes: seq<Pass<I>>, k: nat)
    requires 0 < len && Watched(len, start, passes) && k < |passes| && CaughtUp(passes[k])
    ensures var written := passes[k].sight.written;
            passes[k].had <= written[|written| - 1] == Reached(start, passes[..k + 1]) <= Reached(start, passes)
  {
    ReachedRises(len, start, passes, k + 1);
    assert Follows(len, start, passes[..k], passes[k]);
  }
}
