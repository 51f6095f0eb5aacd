/**
 The server's main loop: a timed machine over the observation plan.

 Each pass looks up the next plan action within five minutes, sleeps up to it,
 and acts: aim, start recording, or end it.  Looking up, writing status and
 updating the database take no time here; only sleeping does.
 */
module Scheduler {
  import opened Bytes

  datatype Item = Item(id: int, objectName: string, obsStart: int, recStart: int, end: int, record: bool)

  const EMPTY: Item := Item(0, "", 0, 0, 0, false)

  // ------------------------------------------------------------------
  // The database queries
  // ------------------------------------------------------------------

  predicate Near(now: int, event: int) {
    now + 10 < event < now + 300
  }

  /** The WHERE clause of getNextDbItem. */
  predicate Selected(item: Item, now: int) {
    Near(now, item.obsStart) || Near(now, item.recStart) || Near(now, item.end)
  }

  /** ORDER BY obs_start_time LIMIT 1 over the selected rows. */
  function NextItem(plan: seq<Item>, now: int): (r: Option<Item>)
    ensures r.None? <==> forall i :: 0 <= i < |plan| ==> !Selected(plan[i], now)
    ensures r.Some? ==> r.value in plan && Selected(r.value, now)
    ensures r.Some? ==> forall i :: 0 <= i < |plan| && Selected(plan[i], now) ==> r.value.obsStart <= plan[i].obsStart
  {
    if plan == [] then None else
      var n := |plan| - 1;
      var before := NextItem(plan[..n], now);
      if !Selected(plan[n], now) then before
      else if before.Some? && before.value.obsStart <= plan[n].obsStart then before
      else Some(plan[n])
  }

  /** getDbItemById */
  function ItemById(plan: seq<Item>, id: int): (r: Option<Item>)
    ensures r.None? <==> forall i :: 0 <= i < |plan| ==> plan[i].id != id
    ensures r.Some? ==> r.value in plan && r.value.id == id
  {
    if plan == [] then None
    else if plan[0].id == id then Some(plan[0])
    else ItemById(plan[1..], id)
  }

  // ------------------------------------------------------------------
  // One pass of the loop
  // ------------------------------------------------------------------

  /** The clock, the item being observed, and what every session has been told. */
  datatype State = State(now: int, current: Item, info: Item, active: bool)

  function Step(plan: seq<Item>, s: State): State {
    match NextItem(plan, s.now)
    case None =>
      if s.current.id != 0 && ItemById(plan, s.current.id).None?
      then State(s.now, EMPTY, EMPTY, false)
      else s.(now := s.now + 60)
    case Some(next) =>
      if next.obsStart > s.now then s.(now := next.obsStart, current := next)
      else if next.recStart > s.now then
        if s.current.id == 0 then s.(now := s.now + 60)
        else State(next.recStart, s.current, s.current, true)
      else State(next.end, EMPTY, EMPTY, false)
  }

  class Server {
    var now: int
    var currentRecording: Item
    const recordingInfo: array<Item>
    const recordingActive: array<bool>

    ghost predicate Valid()
      reads this, recordingInfo, recordingActive
    {
      recordingInfo.Length == recordingActive.Length
    }

    /** All sessions have been told the same. */
    ghost predicate Agrees(s: State)
      reads this, recordingInfo, recordingActive
    {
      && Valid() && now == s.now && currentRecording == s.current
      && (forall i :: 0 <= i < recordingInfo.Length ==> recordingInfo[i] == s.info && recordingActive[i] == s.active)
    }

    constructor (start: int, deviceCount: nat)
      ensures Agrees(State(start, EMPTY, EMPTY, false)) && recordingInfo.Length == deviceCount
      ensures fresh(recordingInfo) && fresh(recordingActive)
    {
      now, currentRecording := start, EMPTY;
      recordingInfo := new Item[deviceCount](_ => EMPTY);
      recordingActive := new bool[deviceCount](_ => false);
    }

    /** The loop over the devices, each under its own lock. */
    method TellAll(item: Item, active: bool)
      requires Valid()
      modifies recordingInfo, recordingActive
      ensures forall i :: 0 <= i < recordingInfo.Length ==> recordingInfo[i] == item && recordingActive[i] == active
    {
      for i := 0 to recordingInfo.Length
        invariant forall k :: 0 <= k < i ==> recordingInfo[k] == item && recordingActive[k] == active
      {
        recordingInfo[i] := item;
        recordingActive[i] := active;
      }
    }

    method Sleep(seconds: int)
      modifies `now
      ensures now == old(now) + seconds
    {
      now := now + seconds;
    }

    /** One pass; the sessions keep what they were told until the end of its sleep. */
    method Pass(plan: seq<Item>, ghost s: State)
      requires Agrees(s)
      modifies this, recordingInfo, recordingActive
      ensures Agrees(Step(plan, s))
    {
      var curTime := now;
      var next := NextItem(plan, curTime);
      if next.None? {
        if currentRecording.id != 0 {
          var rec := ItemById(plan, currentRecording.id);
          if rec.None? {
            currentRecording := EMPTY;
            TellAll(EMPTY, false);
            return;
          }
        }
        Sleep(60);
        return;
      }
      if next.value.obsStart > curTime {
        Sleep(next.value.obsStart - curTime);
        currentRecording := next.value;
      } else if next.value.recStart > curTime {
        if currentRecording.id == 0 {
          Sleep(60);
          return;
        }
        Sleep(next.value.recStart - curTime);
        TellAll(currentRecording, true);
      } else {
        Sleep(next.value.end - curTime);
        currentRecording := EMPTY;
        TellAll(EMPTY, false);
      }
    }

    /** The loop itself, for any number of passes. */
    method Run(plan: seq<Item>, passes: nat, ghost s: State)
      requires Agrees(s)
      modifies this, recordingInfo, recordingActive
      ensures Agrees(After(plan, s, passes))
    {
      for k := 0 to passes
        invariant Agrees(After(plan, s, k))
      {
        Pass(plan, After(plan, s, k));
      }
    }
  }

  function Begin(start: int): State {
    State(start, EMPTY, EMPTY, false)
  }

  function After(plan: seq<Item>, s: State, passes: nat): State {
    if passes == 0 then s else Step(plan, After(plan, s, passes - 1))
  }

  // ------------------------------------------------------------------
  // Plans
  // ------------------------------------------------------------------

  /** Items are numbered from 1, and any two events of the plan are more than ten seconds apart. */
  ghost predicate WellSpaced(plan: seq<Item>) {
    && (forall i :: 0 <= i < |plan| ==>
          0 < plan[i].id && Ordered(plan[i]))
    && (forall i, j :: 0 <= i < |plan| && 0 <= j < |plan| && i != j ==>
          plan[i].end + 10 < plan[j].obsStart || plan[j].end + 10 < plan[i].obsStart)
  }

  /** The plan says that item i is being recorded at time t. */
  ghost predicate Due(plan: seq<Item>, i: nat, t: int)
    requires i < |plan|
  {
    plan[i].recStart <= t < plan[i].end
  }

  /** No event of the plan lies within the next ten seconds. */
  ghost predicate Quiet(plan: seq<Item>, now: int) {
    forall i :: 0 <= i < |plan| ==>
      && (plan[i].obsStart <= now || now + 10 < plan[i].obsStart)
      && (plan[i].recStart <= now || now + 10 < plan[i].recStart)
      && (plan[i].end <= now || now + 10 < plan[i].end)
  }

  /** Between items. */
  ghost predicate Resting(plan: seq<Item>, s: State) {
    && s.current == EMPTY && s.info == EMPTY && !s.active
    && forall i :: 0 <= i < |plan| ==> s.now < plan[i].obsStart || plan[i].end <= s.now
  }

  /** Aiming at item i. */
  ghost predicate Aiming(plan: seq<Item>, s: State, i: nat)
    requires i < |plan|
  {
    s.current == plan[i] && s.info == EMPTY && !s.active && plan[i].obsStart <= s.now < plan[i].recStart
  }

  /** Recording item i. */
  ghost predicate OnAir(plan: seq<Item>, s: State, i: nat)
    requires i < |plan|
  {
    s.current == plan[i] && s.info == plan[i] && s.active && Due(plan, i, s.now)
  }

  ghost predicate OnPlan(plan: seq<Item>, s: State) {
    Quiet(plan, s.now)
    && (Resting(plan, s) || exists i :: 0 <= i < |plan| && (Aiming(plan, s, i) || OnAir(plan, s, i)))
  }

  /** While item i is under way, it is the one the query finds, if any. */
  lemma BusyFindsSelf(plan: seq<Item>, now: int, i: nat)
    requires WellSpaced(plan) && Quiet(plan, now) && i < |plan| && plan[i].obsStart <= now < plan[i].end
    requires NextItem(plan, now).Some?
    ensures NextItem(plan, now).value == plan[i]
  {
    var next := NextItem(plan, now).value;
    var j :| 0 <= j < |plan| && plan[j] == next;
    if j != i {
      assert plan[i].end + 10 < plan[j].obsStart || plan[j].end + 10 < plan[i].obsStart;
      OtherIsLater(plan[i], plan[j], now);
    }
  }

  /** Another item can only be selected after an item under way that is selected too, and starts earlier. */
  lemma OtherIsLater(mine: Item, other: Item, now: int)
    requires mine.obsStart <= now && now + 10 < mine.end && Ordered(mine) && Ordered(other) && Selected(other, now)
    requires mine.end + 10 < other.obsStart || other.end + 10 < mine.obsStart
    ensures Selected(mine, now) && mine.obsStart < other.obsStart
  {
  }

  ghost predicate Ordered(item: Item) {
    item.obsStart + 10 < item.recStart && item.recStart + 10 < item.end
  }

  /** With nothing near, a minute's sleep passes no event. */
  lemma NothingWithinMinute(plan: seq<Item>, now: int)
    requires Quiet(plan, now) && NextItem(plan, now).None?
    ensures Quiet(plan, now + 60)
    ensures forall i :: 0 <= i < |plan| ==>
              && (plan[i].obsStart <= now || now + 60 < plan[i].obsStart)
              && (plan[i].recStart <= now || now + 60 < plan[i].recStart)
              && (plan[i].end <= now || now + 60 < plan[i].end)
  {
    forall i | 0 <= i < |plan|
      ensures !Near(now, plan[i].obsStart) && !Near(now, plan[i].recStart) && !Near(now, plan[i].end)
    {
      assert !Selected(plan[i], now);
    }
  }

  /** Between items, the item the query finds is the next one to come, and nothing happens before it starts. */
  lemma IdleFindsNext(plan: seq<Item>, s: State, k: nat)
    requires WellSpaced(plan) && Quiet(plan, s.now) && Resting(plan, s)
    requires k < |plan| && NextItem(plan, s.now) == Some(plan[k])
    ensures s.now < plan[k].obsStart
    ensures forall i :: 0 <= i < |plan| && i != k ==> plan[i].end <= s.now || plan[k].end + 10 < plan[i].obsStart
  {
    assert Ordered(plan[k]);
    forall i | 0 <= i < |plan| && i != k
      ensures plan[i].end <= s.now || plan[k].end + 10 < plan[i].obsStart
    {
      assert Ordered(plan[i]);
      assert Selected(plan[i], s.now) ==> plan[k].obsStart <= plan[i].obsStart;
    }
  }

  // ------------------------------------------------------------------
  // Every pass keeps to the plan
  // ------------------------------------------------------------------

  /** At time t the plan has item i being recorded and no other. */
  lemma OnlyOneDue(plan: seq<Item>, i: nat, t: int)
    requires WellSpaced(plan) && i < |plan| && plan[i].obsStart <= t < plan[i].end
    ensures forall j :: 0 <= j < |plan| && j != i ==> !Due(plan, j, t)
  {
    forall j | 0 <= j < |plan| && j != i
      ensures !Due(plan, j, t)
    {
      assert plan[i].end + 10 < plan[j].obsStart || plan[j].end + 10 < plan[i].obsStart;
      assert Ordered(plan[j]);
    }
  }

  /** What the sessions have been told is what the plan says at time t. */
  ghost predicate Truthful(plan: seq<Item>, s: State, t: int) {
    && (s.active <==> exists i :: 0 <= i < |plan| && Due(plan, i, t))
    && (forall i :: 0 <= i < |plan| && Due(plan, i, t) ==> s.info == plan[i])
    && (!s.active ==> s.info == EMPTY)
  }

  lemma RestingIsTruthful(plan: seq<Item>, s: State, t: int)
    requires WellSpaced(plan) && Resting(plan, s) && s.now <= t
    requires forall i :: 0 <= i < |plan| ==> plan[i].end <= s.now || t < plan[i].obsStart
    ensures Truthful(plan, s, t)
  {
    forall i | 0 <= i < |plan|
      ensures !Due(plan, i, t)
    {
      assert Ordered(plan[i]);
    }
  }

  lemma AimingIsTruthful(plan: seq<Item>, s: State, i: nat, t: int)
    requires WellSpaced(plan) && i < |plan| && Aiming(plan, s, i) && s.now <= t < plan[i].recStart
    ensures Truthful(plan, s, t)
  {
    assert Ordered(plan[i]);
    OnlyOneDue(plan, i, t);
  }

  lemma OnAirIsTruthful(plan: seq<Item>, s: State, i: nat, t: int)
    requires WellSpaced(plan) && i < |plan| && OnAir(plan, s, i) && s.now <= t < plan[i].end
    ensures Truthful(plan, s, t)
  {
    assert Ordered(plan[i]) && Due(plan, i, t);
    OnlyOneDue(plan, i, t);
  }

  // ------------------------------------------------------------------
  // The three kinds of pass
  // ------------------------------------------------------------------

  /** After an event of item i, the next event is more than ten seconds off. */
  lemma QuietAt(plan: seq<Item>, i: nat, now: int)
    requires WellSpaced(plan) && i < |plan|
    requires now == plan[i].obsStart || now == plan[i].recStart || now == plan[i].end
    ensures Quiet(plan, now)
  {
    forall j | 0 <= j < |plan|
      ensures plan[j].obsStart <= now || now + 10 < plan[j].obsStart
      ensures plan[j].recStart <= now || now + 10 < plan[j].recStart
      ensures plan[j].end <= now || now + 10 < plan[j].end
    {
      assert Ordered(plan[i]) && Ordered(plan[j]);
      assert j != i ==> plan[i].end + 10 < plan[j].obsStart || plan[j].end + 10 < plan[i].obsStart;
    }
  }

  lemma RestingPass(plan: seq<Item>, s: State)
    requires WellSpaced(plan) && Quiet(plan, s.now) && Resting(plan, s)
    ensures OnPlan(plan, Step(plan, s)) && s.now < Step(plan, s).now
    ensures forall t :: s.now <= t < Step(plan, s).now ==> Truthful(plan, s, t)
  {
    var s' := Step(plan, s);
    match NextItem(plan, s.now)
    case None =>
      NothingWithinMinute(plan, s.now);
      forall t | s.now <= t < s'.now
        ensures Truthful(plan, s, t)
      {
        RestingIsTruthful(plan, s, t);
      }
    case Some(next) =>
      var k :| 0 <= k < |plan| && plan[k] == next;
      IdleFindsNext(plan, s, k);
      QuietAt(plan, k, next.obsStart);
      assert Ordered(plan[k]) && Aiming(plan, s', k);
      forall t | s.now <= t < s'.now
        ensures Truthful(plan, s, t)
      {
        RestingIsTruthful(plan, s, t);
      }
  }

  lemma AimingPass(plan: seq<Item>, s: State, i: nat)
    requires WellSpaced(plan) && Quiet(plan, s.now) && i < |plan| && Aiming(plan, s, i)
    ensures OnPlan(plan, Step(plan, s)) && s.now < Step(plan, s).now <= plan[i].recStart
  {
    assert Ordered(plan[i]);
    match NextItem(plan, s.now)
    case None =>
      NothingWithinMinute(plan, s.now);
      assert ItemById(plan, s.current.id).Some?;
      assert Aiming(plan, Step(plan, s), i);
    case Some(_) =>
      BusyFindsSelf(plan, s.now, i);
      QuietAt(plan, i, plan[i].recStart);
      assert OnAir(plan, Step(plan, s), i);
  }

  lemma OnAirPass(plan: seq<Item>, s: State, i: nat)
    requires WellSpaced(plan) && Quiet(plan, s.now) && i < |plan| && OnAir(plan, s, i)
    ensures OnPlan(plan, Step(plan, s)) && s.now < Step(plan, s).now <= plan[i].end
  {
    assert Ordered(plan[i]);
    match NextItem(plan, s.now)
    case None =>
      NothingWithinMinute(plan, s.now);
      assert ItemById(plan, s.current.id).Some?;
      assert OnAir(plan, Step(plan, s), i);
    case Some(_) =>
      BusyFindsSelf(plan, s.now, i);
      QuietAt(plan, i, plan[i].end);
      EndIsBetween(plan, i);
      assert Resting(plan, Step(plan, s));
  }

  /** The end of an item lies between items. */
  lemma EndIsBetween(plan: seq<Item>, i: nat)
    requires WellSpaced(plan) && i < |plan|
    ensures forall j :: 0 <= j < |plan| ==> plan[i].end < plan[j].obsStart || plan[j].end <= plan[i].end
  {
    forall j | 0 <= j < |plan|
      ensures plan[i].end < plan[j].obsStart || plan[j].end <= plan[i].end
    {
      assert Ordered(plan[i]) && Ordered(plan[j]);
      assert j != i ==> plan[i].end + 10 < plan[j].obsStart || plan[j].end + 10 < plan[i].obsStart;
    }
  }

  /** A pass keeps to the plan and takes time. */
  lemma PassKeepsPlan(plan: seq<Item>, s: State)
    requires WellSpaced(plan) && OnPlan(plan, s)
    ensures OnPlan(plan, Step(plan, s)) && s.now < Step(plan, s).now
  {
    if Resting(plan, s) {
      RestingPass(plan, s);
    } else {
      var i :| 0 <= i < |plan| && (Aiming(plan, s, i) || OnAir(plan, s, i));
      if Aiming(plan, s, i) {
        AimingPass(plan, s, i);
      } else {
        OnAirPass(plan, s, i);
      }
    }
  }

  /** While a pass sleeps the sessions have been told what the plan says. */
  lemma PassIsTruthful(plan: seq<Item>, s: State, t: int)
    requires WellSpaced(plan) && OnPlan(plan, s) && s.now <= t < Step(plan, s).now
    ensures Truthful(plan, s, t)
  {
    if Resting(plan, s) {
      RestingPass(plan, s);
    } else {
      var i :| 0 <= i < |plan| && (Aiming(plan, s, i) || OnAir(plan, s, i));
      if Aiming(plan, s, i) {
        AimingPass(plan, s, i);
        AimingIsTruthful(plan, s, i, t);
      } else {
        OnAirPass(plan, s, i);
        OnAirIsTruthful(plan, s, i, t);
      }
    }
  }

  // ------------------------------------------------------------------
  // The whole run
  // ------------------------------------------------------------------

  /** The server starts more than ten seconds before anything is planned. */
  ghost predicate StartsEarly(plan: seq<Item>, start: int) {
    forall i :: 0 <= i < |plan| ==> start + 10 < plan[i].obsStart
  }

  lemma BeginIsOnPlan(plan: seq<Item>, start: int)
    requires WellSpaced(plan) && StartsEarly(plan, start)
    ensures OnPlan(plan, Begin(start))
  {
    forall i | 0 <= i < |plan|
      ensures start + 10 < plan[i].obsStart < plan[i].recStart < plan[i].end
    {
      assert Ordered(plan[i]);
    }
    assert Resting(plan, Begin(start));
  }

  lemma {:induction false} RunKeepsPlan(plan: seq<Item>, start: int, passes: nat)
    requires WellSpaced(plan) && StartsEarly(plan, start)
    ensures OnPlan(plan, After(plan, Begin(start), passes))
    ensures start + passes <= After(plan, Begin(start), passes).now
    decreases passes
  {
    hide Step;
    hide OnPlan;
    hide WellSpaced;
    var s := Begin(start);
    if passes == 0 {
      BeginIsOnPlan(plan, start);
    } else {
      RunKeepsPlan(plan, start, passes - 1);
      PassKeepsPlan(plan, After(plan, s, passes - 1));
    }
  }

  /** Every moment from the start on falls into the sleep of some pass. */
  lemma {:induction false} EveryMomentIsCovered(plan: seq<Item>, start: int, t: int) returns (passes: nat)
    requires WellSpaced(plan) && StartsEarly(plan, start) && start <= t
    ensures var s := After(plan, Begin(start), passes); s.now <= t < Step(plan, s).now
    decreases t - start
  {
    hide Step;
    hide OnPlan;
    hide WellSpaced;
    if t == start {
      passes := 0;
    } else {
      passes := EveryMomentIsCovered(plan, start, t - 1);
      if Step(plan, After(plan, Begin(start), passes)).now == t {
        passes := passes + 1;
      }
    }
    RunKeepsPlan(plan, start, passes);
    PassKeepsPlan(plan, After(plan, Begin(start), passes));
  }

  /**
   The scheduler records exactly the plan: at every moment of every pass, what
   the sessions have been told is what the plan says for that moment.
   */
  lemma RecordsExactlyThePlan(plan: seq<Item>, start: int, passes: nat, t: int)
    requires WellSpaced(plan) && StartsEarly(plan, start)
    requires var s := After(plan, Begin(start), passes); s.now <= t < Step(plan, s).now
    ensures Truthful(plan, After(plan, Begin(start), passes), t)
  {
    RunKeepsPlan(plan, start, passes);
    PassIsTruthful(plan, After(plan, Begin(start), passes), t);
  }

  // ------------------------------------------------------------------
  // Exactly which plans are recorded
  // ------------------------------------------------------------------

  /** What the web form lets into a plan: recording starts ten minutes after aiming, and items do not touch. */
  ghost predicate Planned(plan: seq<Item>) {
    && (forall i :: 0 <= i < |plan| ==>
          0 < plan[i].id && plan[i].recStart == plan[i].obsStart + 600 && plan[i].recStart < plan[i].end)
    && (forall i, j :: 0 <= i < |plan| && 0 <= j < |plan| && i != j ==>
          plan[i].end < plan[j].obsStart || plan[j].end < plan[i].obsStart)
  }

  /** Time t falls into this pass. */
  ghost predicate InPass(plan: seq<Item>, start: int, passes: nat, t: int) {
    var s := After(plan, Begin(start), passes);
    s.now <= t < Step(plan, s).now
  }

  /** At every moment of the whole run the sessions have been told what the plan says. */
  ghost predicate FollowsPlan(plan: seq<Item>, start: int) {
    forall passes: nat, t: int :: InPass(plan, start, passes, t) ==> Truthful(plan, After(plan, Begin(start), passes), t)
  }

  /** What is being observed is an item of the plan, if anything. */
  ghost predicate Known(plan: seq<Item>, s: State) {
    s.current == EMPTY || s.current in plan
  }

  lemma StepTakesTime(plan: seq<Item>, s: State)
    requires Planned(plan) && Known(plan, s)
    ensures Known(plan, Step(plan, s)) && s.now < Step(plan, s).now
  {
    if s.current in plan {
      var i :| 0 <= i < |plan| && plan[i] == s.current;
      assert ItemById(plan, s.current.id).Some?;
    }
    if NextItem(plan, s.now).Some? {
      var j :| 0 <= j < |plan| && plan[j] == NextItem(plan, s.now).value;
    }
  }

  lemma {:induction false} RunTakesTime(plan: seq<Item>, start: int, passes: nat)
    requires Planned(plan)
    ensures Known(plan, After(plan, Begin(start), passes))
    ensures start + passes <= After(plan, Begin(start), passes).now
    decreases passes
  {
    hide Step;
    hide Planned;
    if passes > 0 {
      RunTakesTime(plan, start, passes - 1);
      StepTakesTime(plan, After(plan, Begin(start), passes - 1));
    }
  }

  /** Every moment falls into some pass, whatever the spacing. */
  lemma {:induction false} SomePass(plan: seq<Item>, start: int, t: int) returns (passes: nat)
    requires Planned(plan) && start <= t
    ensures InPass(plan, start, passes, t)
    decreases t - start
  {
    if t == start {
      passes := 0;
    } else {
      passes := SomePass(plan, start, t - 1);
      if Step(plan, After(plan, Begin(start), passes)).now == t {
        passes := passes + 1;
      }
    }
    RunTakesTime(plan, start, passes);
    StepTakesTime(plan, After(plan, Begin(start), passes));
  }

  /** An item under way keeps all others from being due. */
  lemma Undisturbed(plan: seq<Item>, i: nat, t: int)
    requires Planned(plan) && i < |plan| && plan[i].obsStart <= t <= plan[i].end
    ensures forall j :: 0 <= j < |plan| && j != i ==> !Due(plan, j, t)
  {
  }

  /** What the sessions have been told cannot be right on both sides of a recording's start. */
  lemma StartIsAChange(plan: seq<Item>, s: State, i: nat)
    requires Planned(plan) && i < |plan|
    ensures !Truthful(plan, s, plan[i].recStart - 1) || !Truthful(plan, s, plan[i].recStart)
  {
    Undisturbed(plan, i, plan[i].recStart - 1);
    assert Due(plan, i, plan[i].recStart);
  }

  /** Nor on both sides of its end. */
  lemma EndIsAChange(plan: seq<Item>, s: State, i: nat)
    requires Planned(plan) && i < |plan|
    ensures !Truthful(plan, s, plan[i].end - 1) || !Truthful(plan, s, plan[i].end)
  {
    Undisturbed(plan, i, plan[i].end);
    assert Due(plan, i, plan[i].end - 1);
  }

  /** On a run that follows the plan some pass begins just when a recording is to start, with that item on air. */
  lemma PassAtRecStart(plan: seq<Item>, start: int, i: nat) returns (passes: nat)
    requires Planned(plan) && StartsEarly(plan, start) && FollowsPlan(plan, start) && i < |plan|
    ensures var s := After(plan, Begin(start), passes); s.now == plan[i].recStart && s.active && s.info == plan[i]
    ensures InPass(plan, start, passes, plan[i].recStart)
  {
    hide Step;
    var t := plan[i].recStart;
    passes := SomePass(plan, start, t);
    var s := After(plan, Begin(start), passes);
    assert Due(plan, i, t) && Truthful(plan, s, t);
    StartIsAChange(plan, s, i);
    assert s.now < t ==> InPass(plan, start, passes, t - 1);
  }

  /** A recording of ten seconds or less: its end is not seen from its start, and the flag is still up at it. */
  lemma ShortRecordingOverruns(plan: seq<Item>, start: int, i: nat)
    requires Planned(plan) && StartsEarly(plan, start) && i < |plan| && plan[i].end <= plan[i].recStart + 10
    ensures !FollowsPlan(plan, start)
  {
    hide Step;
    hide Truthful;
    var end := plan[i].end;
    if FollowsPlan(plan, start) {
      var passes := PassAtRecStart(plan, start, i);
      var s := After(plan, Begin(start), passes);
      RunTakesTime(plan, start, passes);
      PassesEnd(plan, s, i);
      assert InPass(plan, start, passes, end - 1) && InPass(plan, start, passes, end);
      EndIsAChange(plan, s, i);
    }
  }

  /** The pass that begins with a recording of ten seconds or less sleeps past its end. */
  lemma PassesEnd(plan: seq<Item>, s: State, i: nat)
    requires Planned(plan) && Known(plan, s) && i < |plan|
    requires s.now == plan[i].recStart && plan[i].end <= plan[i].recStart + 10
    ensures plan[i].end < Step(plan, s).now
  {
    StepTakesTime(plan, s);
    match NextItem(plan, s.now)
    case None =>
      if s.current in plan {
        assert ItemById(plan, s.current.id).Some?;
      }
    case Some(next) =>
      var j :| 0 <= j < |plan| && plan[j] == next;
      assert !Selected(plan[i], s.now);
      assert plan[i].end < plan[j].obsStart;
  }

  /** The item in hand changes to what the query found, by a sleep up to its observation start. */
  lemma TakenInHand(plan: seq<Item>, s: State)
    requires Step(plan, s).current != EMPTY && Step(plan, s).current != s.current
    ensures var s' := Step(plan, s); NextItem(plan, s.now) == Some(s'.current) && s.now < s'.current.obsStart == s'.now
  {
  }

  /** The flag goes up for the item in hand. */
  lemma FlagForItemInHand(plan: seq<Item>, s: State)
    requires !s.active && Step(plan, s).active
    ensures Step(plan, s).info == s.current
  {
  }

  /** Whatever is being observed was found by a pass before its observation start. */
  lemma {:induction false} AimedAt(plan: seq<Item>, start: int, passes: nat) returns (before: nat)
    requires Planned(plan) && After(plan, Begin(start), passes).current != EMPTY
    ensures var s, s' := After(plan, Begin(start), before), After(plan, Begin(start), passes);
            && NextItem(plan, s.now) == Some(s'.current)
            && s.now < s'.current.obsStart == Step(plan, s).now
    decreases passes
  {
    hide Step;
    hide NextItem;
    hide Planned;
    var s := After(plan, Begin(start), passes - 1);
    if s.current == After(plan, Begin(start), passes).current {
      before := AimedAt(plan, start, passes - 1);
    } else {
      before := passes - 1;
      TakenInHand(plan, s);
    }
  }

  /** The pass before a recording starts has its item in hand. */
  lemma HeldBeforeRecStart(plan: seq<Item>, start: int, i: nat) returns (passes: nat)
    requires Planned(plan) && StartsEarly(plan, start) && FollowsPlan(plan, start) && i < |plan|
    ensures After(plan, Begin(start), passes).current == plan[i]
  {
    hide Step;
    var next := PassAtRecStart(plan, start, i);
    passes := next - 1;
    var s := After(plan, Begin(start), passes);
    RunTakesTime(plan, start, passes);
    StepTakesTime(plan, s);
    assert InPass(plan, start, passes, plan[i].recStart - 1);
    assert Truthful(plan, s, plan[i].recStart - 1);
    Undisturbed(plan, i, plan[i].recStart - 1);
    FlagForItemInHand(plan, s);
  }

  /** An item that starts ten seconds or less after another one ends is found before that end, if at all. */
  lemma FoundBeforeOtherEnds(plan: seq<Item>, i: nat, j: nat, now: int)
    requires Planned(plan) && i < |plan| && j < |plan| && plan[j].obsStart <= plan[i].end + 10
    requires Selected(plan[j], now) && now < plan[j].obsStart
    ensures now < plan[i].end
  {
  }

  /** So its pass sleeps over that end, or it is never found, and so never recorded. */
  lemma CloseItemIsMissed(plan: seq<Item>, start: int, i: nat, j: nat)
    requires Planned(plan) && StartsEarly(plan, start) && i < |plan| && j < |plan|
    requires plan[i].end < plan[j].obsStart <= plan[i].end + 10
    ensures !FollowsPlan(plan, start)
  {
    hide Step;
    hide Truthful;
    hide Selected;
    var end := plan[i].end;
    if FollowsPlan(plan, start) {
      var passes := HeldBeforeRecStart(plan, start, j);
      var before := AimedAt(plan, start, passes);
      var s := After(plan, Begin(start), before);
      FoundBeforeOtherEnds(plan, i, j, s.now);
      assert InPass(plan, start, before, end - 1) && InPass(plan, start, before, end);
      EndIsAChange(plan, s, i);
    }
  }

  /** The scheduler records exactly the plan if and only if all its events are more than ten seconds apart. */
  lemma FollowsPlanIffWellSpaced(plan: seq<Item>, start: int)
    requires Planned(plan) && StartsEarly(plan, start)
    ensures FollowsPlan(plan, start) <==> WellSpaced(plan)
  {
    if WellSpaced(plan) {
      forall passes: nat, t: int | InPass(plan, start, passes, t)
        ensures Truthful(plan, After(plan, Begin(start), passes), t)
      {
        RecordsExactlyThePlan(plan, start, passes, t);
      }
    } else if i: nat :| i < |plan| && plan[i].end <= plan[i].recStart + 10 {
      ShortRecordingOverruns(plan, start, i);
    } else {
      assert forall i :: 0 <= i < |plan| ==> Ordered(plan[i]);
      var i, j :| 0 <= i < |plan| && 0 <= j < |plan| && i != j
        && !(plan[i].end + 10 < plan[j].obsStart || plan[j].end + 10 < plan[i].obsStart);
      if plan[i].end < plan[j].obsStart {
        CloseItemIsMissed(plan, start, i, j);
      } else {
        CloseItemIsMissed(plan, start, j, i);
      }
    }
  }

  // ------------------------------------------------------------------
  // Cancelling
  // ------------------------------------------------------------------

  /** The query finds nothing exactly when no event is more than 10 and less than 300 seconds away. */
  lemma QueryWindow(plan: seq<Item>, now: int)
    ensures NextItem(plan, now).None? <==> forall i :: 0 <= i < |plan| ==> NothingNear(plan[i], now)
  {
  }

  ghost predicate NothingNear(item: Item, now: int) {
    && !(now + 10 < item.obsStart < now + 300)
    && !(now + 10 < item.recStart < now + 300)
    && !(now + 10 < item.end < now + 300)
  }

  /**
   When the item in hand is no longer in the plan, its flag goes down at once if
   and only if no other item has an event in the query's window; otherwise the
   pass sleeps first, with the sessions told what they were.
   */
  lemma CancelledStopsIffNothingNear(plan: seq<Item>, s: State)
    requires s.current.id != 0 && forall i :: 0 <= i < |plan| ==> plan[i].id != s.current.id
    ensures Step(plan, s) == State(s.now, Item(0, "", 0, 0, 0, false), Item(0, "", 0, 0, 0, false), false)
       <==> forall i :: 0 <= i < |plan| ==> NothingNear(plan[i], s.now)
    ensures Step(plan, s).now == s.now <==> forall i :: 0 <= i < |plan| ==> NothingNear(plan[i], s.now)
  {
    QueryWindow(plan, s.now);
  }

  // ------------------------------------------------------------------
  // A recording that never ends
  // ------------------------------------------------------------------

  function Short(end: int): Item {
    Item(1, "", 1000, 1600, end, true)
  }

  /** One pass with the short recording alone in the plan. */
  lemma ShortStep(end: int, s: State)
    requires 1600 < end <= 1610 && (s.current == EMPTY || s.current == Short(end))
    ensures var item := Short(end);
      && (910 <= s.now + 10 < 1000 ==> Step([item], s) == s.(now := 1000, current := item))
      && (s.current == item && (1000 <= s.now <= 1300 || 1600 <= s.now) ==> Step([item], s) == s.(now := s.now + 60))
      && (s.current == item && 1300 < s.now < 1590 ==> Step([item], s) == State(1600, item, item, true))
  {
    var plan := [Short(end)];
    var next := NextItem(plan, s.now);
    assert next.Some? ==> next.value == plan[0];
    assert next.None? ==> !Selected(plan[0], s.now);
    assert s.current == plan[0] ==> ItemById(plan, plan[0].id).Some?;
  }

  /**
   Ten seconds are not enough: a recording that lasts ten at most is aimed at
   and started on time, and then never found again, so the flag stays up.
   */
  lemma {:induction false} ShortRecordingNeverEnds(end: int, passes: nat)
    requires 1600 < end <= 1610
    ensures After([Short(end)], Begin(900), 8 + passes) == State(1600 + 60 * passes, Short(end), Short(end), true)
    decreases passes
  {
    var item := Short(end);
    if passes == 0 {
      ShortStart(end);
    } else {
      ShortRecordingNeverEnds(end, passes - 1);
      ShortStep(end, After([item], Begin(900), 8 + (passes - 1)));
    }
  }

  lemma ShortStart(end: int)
    requires 1600 < end <= 1610
    ensures After([Short(end)], Begin(900), 8) == State(1600, Short(end), Short(end), true)
  {
    var item := Short(end);
    ShortStep(end, Begin(900));
    var k: nat := 1;
    AfterOne([item], Begin(900), 0);
    assert After([item], Begin(900), 0) == Begin(900);
    while k < 7
      invariant 1 <= k <= 7
      invariant After([item], Begin(900), k) == State(1000 + 60 * (k - 1), item, EMPTY, false)
    {
      ShortStep(end, After([item], Begin(900), k));
      AfterOne([item], Begin(900), k);
      k := k + 1;
    }
    ShortStep(end, After([item], Begin(900), 7));
    AfterOne([item], Begin(900), 7);
  }

  lemma AfterOne(plan: seq<Item>, s: State, k: nat)
    ensures After(plan, s, k + 1) == Step(plan, After(plan, s, k))
  {
  }
}
