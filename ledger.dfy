/** The resource ledger the heuristic schedulers share (heuristics/methods/method.py):
    the capacity left in each time slot, extended on demand with slots at `r_max`
    and debited over an activity's window when the activity is scheduled. */
module HeuristicMethods {
  import opened Results
  import opened Sequences
  import opened Activities
  import opened Projects
  import opened Cpm

  /** What `a` takes in slot `u`: its resources while it runs, nothing otherwise. */
  function Demand(a: Activity, u: int): nat
  {
    if a.actualStart.Some? && a.actualEnd.Some? && a.actualStart.value <= u < a.actualEnd.value
    then a.resources else 0
  }

  function DemandAt(u: int): Activity -> int
  {
    a => Demand(a, u)
  }

  /** What the scheduled activities take in slot `u` altogether. */
  function Usage(s: seq<Activity>, u: int): int
  {
    Sum(s, DemandAt(u))
  }

  /** Neither actual time is set. */
  predicate Unstarted(a: Activity)
  {
    a.actualStart.None? && a.actualEnd.None?
  }

  /** A scheduled activity runs from a non-negative start for exactly its duration,
      inside a ledger of `len` slots; an unscheduled one has neither time. */
  predicate Placed(a: Activity, len: int)
  {
    if a.actualStart.Some? then
      a.actualEnd.Some? && 0 <= a.actualStart.value &&
      a.actualEnd.value == a.actualStart.value + a.duration <= len
    else a.actualEnd.None?
  }

  /** The ledger invariant: every scheduled activity lies inside the ledger, and each
      slot holds `r_max` less what the scheduled activities take in it. */
  predicate Booked(s: seq<Activity>, avail: seq<int>, rMax: int)
  {
    (forall k :: 0 <= k < |s| ==> Placed(s[k], |avail|)) &&
    (forall u :: 0 <= u < |avail| ==> avail[u] == rMax - Usage(s, u))
  }

  /** The capacity of slot `u`, a slot the ledger does not hold yet counting as `r_max`. */
  function Slot(avail: seq<int>, rMax: int, u: int): int
  {
    if 0 <= u < |avail| then avail[u] else rMax
  }

  /** `after` is `before` followed by fresh slots at `r_max`. */
  predicate Extends(before: seq<int>, after: seq<int>, rMax: int)
  {
    |before| <= |after| &&
    (forall u :: 0 <= u < |before| ==> after[u] == before[u]) &&
    (forall u :: |before| <= u < |after| ==> after[u] == rMax)
  }

  /** `a` scheduled from `start`: its actual start and end are set. */
  function Started(a: Activity, start: int): (r: Activity)
    ensures r.actualStart == Some(start) && r.actualEnd == Some(start + a.duration)
    ensures r.(actualStart := a.actualStart, actualEnd := a.actualEnd) == a
  {
    a.(actualStart := Some(start), actualEnd := Some(start + a.duration))
  }

  /** The ledger with `resources` taken from every slot of `[start, start + duration)`. */
  function Debit(avail: seq<int>, start: int, duration: nat, resources: nat): (r: seq<int>)
    ensures |r| == |avail|
    ensures forall u :: 0 <= u < |avail| && start <= u < start + duration ==> r[u] == avail[u] - resources
    ensures forall u :: 0 <= u < |avail| && !(start <= u < start + duration) ==> r[u] == avail[u]
  {
    seq(|avail|, u requires 0 <= u < |avail| => if start <= u < start + duration then avail[u] - resources else avail[u])
  }

  /** No activity is scheduled: the state in which every scheduler begins. */
  predicate NoneStarted(s: seq<Activity>)
  {
    forall k :: 0 <= k < |s| ==> Unstarted(s[k])
  }

  class HeuristicMethod {
    const cpm: CriticalPathMethod
    var availableResources: seq<int>

    /** The list of activities of the project. */
    function Acts(): array<Activity>
    {
      cpm.project.activities
    }

    function RMax(): int
    {
      cpm.project.rMax
    }

    /** `HeuristicMethod(...)` around a CPM solver: the ledger starts empty. */
    constructor(cpm: CriticalPathMethod)
      ensures this.cpm == cpm && availableResources == []
    {
      this.cpm := cpm;
      availableResources := [];
    }

    /** `_init_missing_available_resources_until`: the ledger reaches slot `timeEnd`;
        the slots it had keep their values and the new ones hold `r_max`. */
    method InitMissingUntil(timeEnd: int)
      modifies this
      ensures |availableResources| == if |old(availableResources)| <= timeEnd then timeEnd + 1
                                      else |old(availableResources)|
      ensures Extends(old(availableResources), availableResources, RMax())
    {
      var desired := timeEnd + 1;
      var actual := |availableResources|;
      var missing := desired - actual;
      if missing > 0 {
        var rMax := cpm.project.rMax;
        availableResources := availableResources + seq(missing, _ => rMax);
      }
    }

    /** `_schedule_activity_from`: activity `i` runs from `startTime` for its duration,
        and its resources are taken from exactly the slots of that window. */
    method ScheduleActivityFrom(i: nat, startTime: int)
      requires i < Acts().Length
      requires 0 <= startTime && startTime + Acts()[i].duration <= |availableResources|
      modifies this, Acts()
      ensures Acts()[..] == old(Acts()[..])[i := Started(old(Acts()[i]), startTime)]
      ensures availableResources ==
        Debit(old(availableResources), startTime, old(Acts()[i]).duration, old(Acts()[i]).resources)
    {
      var acts := cpm.project.activities;
      acts[i] := acts[i].(actualStart := Some(startTime), actualEnd := Some(startTime + acts[i].duration));
      assert acts[..] == old(acts[..])[i := Started(old(acts[i]), startTime)];
      var a := acts[i];
      var time := a.actualStart.value;
      while time < a.actualEnd.value
        invariant acts[..] == old(acts[..])[i := Started(old(acts[i]), startTime)]
        invariant startTime <= time <= startTime + a.duration
        invariant |availableResources| == |old(availableResources)|
        invariant forall u :: 0 <= u < |availableResources| ==>
          availableResources[u] == if startTime <= u < time then old(availableResources)[u] - a.resources
                                   else old(availableResources)[u]
      {
        availableResources := availableResources[time := availableResources[time] - a.resources];
        time := time + 1;
      }
    }
  }

  /** The ledger starts empty and nothing is scheduled: the invariant holds. */
  lemma EmptyIsBooked(s: seq<Activity>, rMax: int)
    requires NoneStarted(s)
    ensures Booked(s, [], rMax)
  {
  }

  /** Slots past the ends of all scheduled activities carry no load. */
  lemma UsageBeyond(s: seq<Activity>, len: int, u: int)
    requires forall k :: 0 <= k < |s| ==> Placed(s[k], len)
    requires len <= u
    ensures Usage(s, u) == 0
  {
    forall k | 0 <= k < |s|
      ensures DemandAt(u)(s[k]) == 0
    {
    }
    SumZero(s, DemandAt(u));
  }

  /** Extending the ledger keeps the invariant. */
  lemma ExtendKeepsBooked(s: seq<Activity>, before: seq<int>, after: seq<int>, rMax: int)
    requires Booked(s, before, rMax) && Extends(before, after, rMax)
    ensures Booked(s, after, rMax)
  {
    forall u | |before| <= u < |after|
      ensures after[u] == rMax - Usage(s, u)
    {
      UsageBeyond(s, |before|, u);
    }
  }

  /** Scheduling an unscheduled activity inside the ledger, and debiting its window,
      keeps the invariant. */
  lemma ScheduleKeepsBooked(s: seq<Activity>, avail: seq<int>, rMax: int, i: int, start: int)
    requires Booked(s, avail, rMax)
    requires 0 <= i < |s| && Unstarted(s[i])
    requires 0 <= start && start + s[i].duration <= |avail|
    ensures Booked(s[i := Started(s[i], start)], Debit(avail, start, s[i].duration, s[i].resources), rMax)
  {
    var t := s[i := Started(s[i], start)];
    var d := Debit(avail, start, s[i].duration, s[i].resources);
    forall u | 0 <= u < |d|
      ensures d[u] == rMax - Usage(t, u)
    {
      SumUpdate(s, i, Started(s[i], start), DemandAt(u));
    }
  }

  /** No slot holds more than `r_max`: what is scheduled never takes a negative amount. */
  lemma BookedAtMostRMax(s: seq<Activity>, avail: seq<int>, rMax: int)
    requires Booked(s, avail, rMax)
    ensures forall u :: 0 <= u < |avail| ==> avail[u] <= rMax
  {
    forall u | 0 <= u < |avail|
      ensures Usage(s, u) >= 0
    {
      SumNonNegative(s, DemandAt(u));
    }
  }

  /** The slots of an extended ledger are the capacities the old one stood for. */
  lemma SlotsOfExtension(before: seq<int>, after: seq<int>, rMax: int)
    requires Extends(before, after, rMax)
    ensures forall u :: 0 <= u < |after| ==> after[u] == Slot(before, rMax, u)
  {
  }

  /** The latest actual end of a list whose activities are all scheduled. */
  function MaxActualEnd(s: seq<Activity>): int
    requires |s| > 0 && forall k :: 0 <= k < |s| ==> s[k].actualEnd.Some?
    decreases |s|
  {
    var last := s[|s| - 1].actualEnd.value;
    if |s| == 1 then last
    else
      var rest := MaxActualEnd(s[..|s| - 1]);
      if rest >= last then rest else last
  }

  lemma {:induction false} MaxActualEndIsMax(s: seq<Activity>)
    requires |s| > 0 && forall k :: 0 <= k < |s| ==> s[k].actualEnd.Some?
    ensures forall k :: 0 <= k < |s| ==> s[k].actualEnd.value <= MaxActualEnd(s)
    ensures exists k :: 0 <= k < |s| && s[k].actualEnd.value == MaxActualEnd(s)
    decreases |s|
  {
    var last := |s| - 1;
    if |s| == 1 {
      assert s[0].actualEnd.value == MaxActualEnd(s);
    } else {
      var init := s[..last];
      MaxActualEndIsMax(init);
      var k :| 0 <= k < |init| && init[k].actualEnd.value == MaxActualEnd(init);
      assert forall j :: 0 <= j < |init| ==> s[j] == init[j];
      if MaxActualEnd(init) >= s[last].actualEnd.value {
        assert s[k].actualEnd.value == MaxActualEnd(s);
      } else {
        assert s[last].actualEnd.value == MaxActualEnd(s);
      }
    }
  }

  /** `_get_project_actual_end`: `max(act.actual_end for act in activities)`.  With
      no activities `max` raises ValueError; a lone activity is returned as it is,
      even unscheduled; among two or more, an unset end is compared with another
      value and raises TypeError. */
  function ProjectActualEnd(s: seq<Activity>): (r: Result<Option<int>>)
    ensures |s| == 0 <==> r == Err(ValueError)
    ensures |s| == 1 ==> r == Ok(s[0].actualEnd)
    ensures |s| > 1 ==> (r.Err? <==> exists k :: 0 <= k < |s| && s[k].actualEnd.None?)
    ensures r.Err? ==> r.error in {ValueError, TypeError}
    ensures r.Ok? && r.value.Some? ==>
      (forall k :: 0 <= k < |s| ==> s[k].actualEnd.Some? && s[k].actualEnd.value <= r.value.value) &&
      (exists k :: 0 <= k < |s| && s[k].actualEnd.value == r.value.value)
  {
    if |s| == 0 then Err(ValueError)
    else if |s| == 1 then Ok(s[0].actualEnd)
    else if exists k :: 0 <= k < |s| && s[k].actualEnd.None? then Err(TypeError)
    else MaxActualEndIsMax(s); Ok(Some(MaxActualEnd(s)))
  }

  /** Every activity has its predecessor list, and every predecessor comes earlier
      in the list: the order in which the schedulers visit activities. */
  predicate PredecessorsFirst(s: seq<Activity>)
  {
    forall k :: 0 <= k < |s| ==>
      s[k].predecessors.Some? && forall p :: p in s[k].predecessors.value ==> 0 <= p < k
  }

  /** A constructed project whose ids all point forward lists predecessors first. */
  lemma NetworkPredecessorsFirst(s: seq<Activity>)
    requires Network(s)
    ensures PredecessorsFirst(s)
  {
    forall k | 0 <= k < |s|
      ensures s[k].predecessors.Some? && forall p :: p in s[k].predecessors.value ==> 0 <= p < k
    {
      PredecessorBeforeSuccessor(s, k);
    }
  }

  /** Activity `k` starts no earlier than every predecessor ends. */
  predicate AfterPredecessors(s: seq<Activity>, k: int)
    requires 0 <= k < |s| && s[k].predecessors.Some?
  {
    s[k].actualStart.Some? &&
    forall p :: p in s[k].predecessors.value ==>
      0 <= p < |s| && s[p].actualEnd.Some? && s[p].actualEnd.value <= s[k].actualStart.value
  }

  /** Running `resources` over `[t, t + duration)` would take more than some slot holds. */
  predicate Conflict(avail: seq<int>, rMax: int, t: int, duration: nat, resources: nat)
  {
    exists u :: t <= u < t + duration && resources > Slot(avail, rMax, u)
  }

  /** The ledger extended with slots at `r_max` until it holds `len` slots. */
  function Grow(avail: seq<int>, rMax: int, len: int): (r: seq<int>)
    ensures |r| == if |avail| < len then len else |avail|
    ensures Extends(avail, r, rMax)
  {
    if |avail| < len then avail + seq(len - |avail|, _ => rMax) else avail
  }

  /** A conflict in a window is a conflict in the ledger it extends. */
  lemma ConflictOfExtension(before: seq<int>, after: seq<int>, rMax: int, t: int, duration: nat, resources: nat)
    requires Extends(before, after, rMax) && 0 <= t && t + duration <= |after|
    ensures Conflict(before, rMax, t, duration, resources) <==>
            exists u :: t <= u < t + duration && resources > after[u]
  {
    SlotsOfExtension(before, after, rMax);
  }

  /** Debiting a window that fits leaves no slot below zero. */
  lemma DebitKeepsFeasible(avail: seq<int>, rMax: int, start: int, duration: nat, resources: nat)
    requires forall u :: 0 <= u < |avail| ==> 0 <= avail[u]
    requires resources <= rMax && !Conflict(avail, rMax, start, duration, resources)
    ensures var d := Debit(Grow(avail, rMax, start + duration + 1), start, duration, resources);
      forall u :: 0 <= u < |d| ==> 0 <= d[u]
  {
    var g := Grow(avail, rMax, start + duration + 1);
    SlotsOfExtension(avail, g, rMax);
    forall u | 0 <= u < |g| && start <= u < start + duration
      ensures resources <= g[u]
    {
      assert resources <= Slot(avail, rMax, u);
    }
  }

  /** `a` with its actual times unset again. */
  function ClearActual(a: Activity): Activity
  {
    a.(actualStart := None, actualEnd := None)
  }

  /** The list as it was before any activity was scheduled. */
  function Unscheduled(s: seq<Activity>): (r: seq<Activity>)
    ensures |r| == |s| && forall k :: 0 <= k < |s| ==> r[k] == ClearActual(s[k])
  {
    seq(|s|, k requires 0 <= k < |s| => ClearActual(s[k]))
  }
}
