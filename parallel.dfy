/** The parallel heuristic methods (heuristics/methods/parallel_method.py,
    heuristics/methods/phm.py, heuristics/methods/phmdp.py): after CPM, a
    time-stepped loop gathers, at each decision time, the unscheduled activities
    whose predecessors have finished and whose window fits the ledger, sorts them
    by (priority, id) and commits each at that time if it still fits, then moves to
    the next time an activity finishes.  The three schedulers differ only in where
    the priorities come from, which `Priorities` names. */
module Parallel {
  import opened Results
  import opened Sequences
  import opened Tuples
  import opened Sorting
  import opened ActivityIds
  import opened Activities
  import opened Projects
  import opened Cpm
  import opened HeuristicMethods
  import opened Serial

  /** Where the priorities come from: the CPM time reserve, fixed once (the parallel
      method and PHM), or the latest start less the current time, recomputed at every
      decision time (PHMDP). */
  datatype Priorities = TimeReserves | DynamicPriorities

  /** `_unfinished_activities_exist`: some activity is not finished at `t`. */
  predicate UnfinishedExist(s: seq<Activity>, t: int)
  {
    exists k :: 0 <= k < |s| && !IsFinished(s[k], t)
  }

  /** `_unfinished_activities_exist` as written: `any` asks `is_finished` of each
      activity in list order and stops at the first unfinished one, so the first
      activity without an actual end met on the way raises TypeError. */
  function UnfinishedExistAsWritten(s: seq<Activity>, t: int): (r: Result<bool>)
    ensures r.Ok? ==> r.value == UnfinishedExist(s, t)
    ensures r.Err? ==> r.error == TypeError && UnfinishedExist(s, t)
    ensures (forall k :: 0 <= k < |s| ==> s[k].actualEnd.Some?) ==> r == Ok(UnfinishedExist(s, t))
    ensures |s| > 0 && s[0].actualEnd.None? ==> r == Err(TypeError)
    decreases |s|
  {
    if |s| == 0 then Ok(false)
    else
      match IsFinishedAsWritten(s[0], t)
      case Err(e) => Err(e)
      case Ok(finished) =>
        if !finished then Ok(true)
        else
          var rest := UnfinishedExistAsWritten(s[1..], t);
          assert forall k :: 1 <= k < |s| ==> s[k] == s[1..][k - 1];
          assert UnfinishedExist(s, t) == UnfinishedExist(s[1..], t) by {
            if UnfinishedExist(s[1..], t) {
              var j :| 0 <= j < |s[1..]| && !IsFinished(s[1..][j], t);
              assert !IsFinished(s[j + 1], t);
            }
          }
          rest
  }

  /** The loop test of `solve` as written raises on every non-empty project before any
      activity is scheduled, at the first decision time. */
  lemma FreshProjectRaises(s: seq<Activity>)
    requires |s| > 0 && NoneStarted(s)
    ensures UnfinishedExistAsWritten(s, 0) == Err(TypeError)
    ensures UnfinishedExist(s, 0)
  {
    assert Unstarted(s[0]);
  }

  /** `_predecessors_finished`: every predecessor has finished by `t`. */
  predicate PredecessorsFinished(s: seq<Activity>, a: Activity, t: int)
  {
    a.predecessors.Some? &&
    forall p :: p in a.predecessors.value ==> 0 <= p < |s| && IsFinished(s[p], t)
  }

  /** `_resources_exceeded`: some slot of `[lo, hi)` holds less than `resources`.
      The test `any` makes from `lo` up finds a slot exactly when the serial method's
      search for the latest such slot does. */
  function ResourcesExceeded(avail: seq<int>, resources: nat, lo: int, hi: int): (r: bool)
    requires 0 <= lo && hi <= |avail|
    ensures r <==> LatestConflict(avail, resources, lo, hi).Some?
    decreases hi - lo
  {
    lo < hi && (resources > avail[lo] || ResourcesExceeded(avail, resources, lo + 1, hi))
  }

  /** Over a window the ledger holds, `_resources_exceeded` is a conflict with the
      ledger it extends. */
  lemma ExceededIsConflict(before: seq<int>, after: seq<int>, rMax: int, t: int, duration: nat, resources: nat)
    requires Extends(before, after, rMax) && 0 <= t && t + duration <= |after|
    ensures ResourcesExceeded(after, resources, t, t + duration) == Conflict(before, rMax, t, duration, resources)
  {
    ConflictOfExtension(before, after, rMax, t, duration, resources);
    var c := LatestConflict(after, resources, t, t + duration);
    if c.Some? {
      assert resources > after[c.value];
    }
  }

  /** `_activity_is_viable` on an unscheduled activity: its predecessors have finished
      by `t` and its window from `t` fits the ledger. */
  predicate ViableAt(s: seq<Activity>, avail: seq<int>, rMax: int, t: int, a: Activity)
  {
    !IsScheduled(a) && PredecessorsFinished(s, a, t) && !Conflict(avail, rMax, t, a.duration, a.resources)
  }

  function ViableWhere(s: seq<Activity>, avail: seq<int>, rMax: int, t: int): Activity -> bool
  {
    a => ViableAt(s, avail, rMax, t, a)
  }

  /** `_get_viable_activities`: the positions of the viable activities, in list order. */
  function Viable(s: seq<Activity>, avail: seq<int>, rMax: int, t: int): (r: seq<nat>)
    ensures forall k :: k in r <==> 0 <= k < |s| && ViableAt(s, avail, rMax, t, s[k])
    ensures forall m, n :: 0 <= m < n < |r| ==> r[m] < r[n]
  {
    IndicesWhere(s, ViableWhere(s, avail, rMax, t))
  }

  /** The key `_sort_by_priority_and_id` sorts by: the priority, then the id's tuple. */
  function PriorityKey(a: Activity): seq<int>
  {
    [if a.priority.Some? then a.priority.value else 0] + Key(a.id)
  }

  /** The sort key as written: reading a priority never assigned raises AttributeError. */
  function SortKeyAsWritten(a: Activity): (r: Result<seq<int>>)
    ensures r.Err? <==> a.priority.None?
    ensures r.Err? ==> r.error == AttributeError
    ensures r.Ok? ==> r.value == PriorityKey(a) && r.value[0] == a.priority.value
  {
    if a.priority.None? then Err(AttributeError) else Ok(PriorityKey(a))
  }

  /** `list.sort(key=...)` as written computes the key of every element first, so one
      activity without a priority makes the whole sort raise. */
  function SortAsWritten(s: seq<Activity>, viable: seq<nat>): (r: Outcome)
    requires forall i :: 0 <= i < |viable| ==> viable[i] < |s|
    ensures r.Fail? <==> exists i :: 0 <= i < |viable| && s[viable[i]].priority.None?
    ensures r.Fail? ==> r.error == AttributeError
    decreases |viable|
  {
    if |viable| == 0 then Pass
    else match SortKeyAsWritten(s[viable[0]])
      case Err(e) => Fail(e)
      case Ok(_) =>
        var r := SortAsWritten(s, viable[1..]);
        assert forall i :: 1 <= i < |viable| ==> viable[i] == viable[1..][i - 1];
        r
  }

  /** PHMDP as written: its `_init_activity_priorities` assigns nothing and the loop
      of the parallel method it inherits never calls `_update_priorities`, so the
      first non-empty viable list of a fresh project reaches the sort with no priority
      set, and the sort raises AttributeError. */
  lemma UnassignedPrioritiesRaise(s: seq<Activity>, viable: seq<nat>)
    requires |viable| > 0 && forall i :: 0 <= i < |viable| ==> viable[i] < |s|
    requires forall k :: 0 <= k < |s| ==> s[k].priority.None?
    ensures SortAsWritten(s, viable) == Fail(AttributeError)
  {
    assert s[viable[0]].priority.None?;
  }

  /** PHMDP's priorities are the latest starts shifted by the same `t`, so ordering
      by (priority, id) is ordering by (latest start, id) at every decision time. */
  lemma DynamicOrderIsLatestStartOrder(a: Activity, b: Activity, t: int)
    requires a.latestStart.Some? && b.latestStart.Some?
    requires a.priority == Some(a.latestStart.value - t) && b.priority == Some(b.latestStart.value - t)
    ensures LexLess(PriorityKey(a), PriorityKey(b)) <==>
            LexLess([a.latestStart.value] + Key(a.id), [b.latestStart.value] + Key(b.id))
  {
    var x, y := PriorityKey(a), PriorityKey(b);
    var x', y' := [a.latestStart.value] + Key(a.id), [b.latestStart.value] + Key(b.id);
    assert x[1..] == x'[1..] == Key(a.id) && y[1..] == y'[1..] == Key(b.id);
  }

  /** Scheduled and still running at `t`. */
  predicate Running(a: Activity, t: int)
  {
    IsScheduled(a) && !IsFinished(a, t)
  }

  /** The earliest actual end among the activities running at `t`, if any. */
  function EarliestRunningEnd(s: seq<Activity>, t: int): (r: Option<int>)
    requires forall k :: 0 <= k < |s| ==> IsScheduled(s[k]) ==> s[k].actualEnd.Some?
    ensures r.None? <==> forall k :: 0 <= k < |s| ==> !Running(s[k], t)
    ensures r.Some? ==> t < r.value
    ensures r.Some? ==> exists k :: 0 <= k < |s| && Running(s[k], t) && s[k].actualEnd.value == r.value
    ensures r.Some? ==> forall k :: 0 <= k < |s| && Running(s[k], t) ==> r.value <= s[k].actualEnd.value
    decreases |s|
  {
    if |s| == 0 then None
    else
      var last := s[|s| - 1];
      var rest := EarliestRunningEnd(s[..|s| - 1], t);
      assert forall k :: 0 <= k < |s| - 1 ==> s[k] == s[..|s| - 1][k];
      if !Running(last, t) then rest
      else if rest.Some? && rest.value <= last.actualEnd.value then rest
      else Some(last.actualEnd.value)
  }

  /** `_get_time_next_act_finish` of PHM: the earliest end among the running
      activities, or the project start when none is running. */
  function NextFinish(s: seq<Activity>, t: int, start: int): (r: int)
    requires forall k :: 0 <= k < |s| ==> IsScheduled(s[k]) ==> s[k].actualEnd.Some?
    ensures (forall k :: 0 <= k < |s| ==> !Running(s[k], t)) ==> r == start
    ensures (exists k :: 0 <= k < |s| && Running(s[k], t)) ==>
      t < r &&
      (exists k :: 0 <= k < |s| && Running(s[k], t) && s[k].actualEnd.value == r) &&
      (forall k :: 0 <= k < |s| && Running(s[k], t) ==> r <= s[k].actualEnd.value)
  {
    match EarliestRunningEnd(s, t)
    case None => start
    case Some(e) => e
  }

  /** `_get_time_next_act_finish` of the parallel method as written: `min` without a
      default raises ValueError when no activity is running. */
  function NextFinishAsWritten(s: seq<Activity>, t: int): (r: Result<int>)
    requires forall k :: 0 <= k < |s| ==> IsScheduled(s[k]) ==> s[k].actualEnd.Some?
    ensures r.Err? <==> forall k :: 0 <= k < |s| ==> !Running(s[k], t)
    ensures r.Err? ==> r.error == ValueError
    ensures r.Ok? ==> forall start :: r.value == NextFinish(s, t, start)
  {
    match EarliestRunningEnd(s, t)
    case None => Err(ValueError)
    case Some(e) => Ok(e)
  }

  /** A lone activity of duration 0 committed at time 0 is finished at once, so the
      next-finish lookup of the parallel method as written raises ValueError before
      the loop can stop, where PHM's falls back to the project start. */
  lemma ZeroDurationLastActivityRaises(a: Activity, start: int)
    requires a.duration == 0 && a.actualStart == Some(0) && a.actualEnd == Some(0)
    ensures UnfinishedExist([a], 0) == false
    ensures NextFinishAsWritten([a], 0) == Err(ValueError)
    ensures NextFinish([a], 0, start) == start
  {
    assert !Running([a][0], 0);
  }

  /** The commit loop of `solve` as a function: each activity of `order` in turn is
      scheduled at `t` when its window still fits the ledger, and skipped otherwise. */
  function Commit(s: seq<Activity>, avail: seq<int>, order: seq<nat>, t: int): (r: (seq<Activity>, seq<int>))
    ensures |r.0| == |s| && |r.1| == |avail|
    decreases |order|
  {
    if |order| == 0 then (s, avail)
    else
      var k := order[0];
      if k < |s| && 0 <= t && t + s[k].duration <= |avail| &&
         !ResourcesExceeded(avail, s[k].resources, t, t + s[k].duration)
      then Commit(s[k := Started(s[k], t)], Debit(avail, t, s[k].duration, s[k].resources), order[1..], t)
      else Commit(s, avail, order[1..], t)
  }

  /** No position occurs twice. */
  predicate Distinct(order: seq<nat>)
  {
    forall i, j :: 0 <= i < j < |order| ==> order[i] != order[j]
  }

  /** What the commit loop may be given: distinct unscheduled activities whose
      windows from `t` the ledger holds. */
  predicate Committable(s: seq<Activity>, avail: seq<int>, order: seq<nat>, t: int)
  {
    0 <= t && Distinct(order) &&
    forall i :: 0 <= i < |order| ==>
      order[i] < |s| && Unstarted(s[order[i]]) && t + s[order[i]].duration <= |avail|
  }

  predicate NonNegative(avail: seq<int>)
  {
    forall u :: 0 <= u < |avail| ==> 0 <= avail[u]
  }

  /** The commit loop only takes capacity away and touches only the activities it
      is given. */
  lemma {:induction false} CommitFrame(s: seq<Activity>, avail: seq<int>, order: seq<nat>, t: int)
    ensures var c := Commit(s, avail, order, t);
      (forall u :: 0 <= u < |avail| ==> c.1[u] <= avail[u]) &&
      (forall k :: 0 <= k < |s| && k !in order ==> c.0[k] == s[k])
    decreases |order|
  {
    if |order| > 0 {
      var k := order[0];
      var rest := order[1..];
      assert forall j :: j in rest ==> j in order;
      if k < |s| && 0 <= t && t + s[k].duration <= |avail| &&
         !ResourcesExceeded(avail, s[k].resources, t, t + s[k].duration) {
        CommitFrame(s[k := Started(s[k], t)], Debit(avail, t, s[k].duration, s[k].resources), rest, t);
      } else {
        CommitFrame(s, avail, rest, t);
      }
    }
  }

  /** Each activity the commit loop is given is either scheduled at `t` or skipped
      because its window does not fit the final ledger. */
  lemma {:induction false} CommitChoices(s: seq<Activity>, avail: seq<int>, order: seq<nat>, t: int)
    requires Committable(s, avail, order, t)
    ensures var c := Commit(s, avail, order, t);
      forall i :: 0 <= i < |order| ==>
        c.0[order[i]] == Started(s[order[i]], t) ||
        (c.0[order[i]] == s[order[i]] &&
         ResourcesExceeded(c.1, s[order[i]].resources, t, t + s[order[i]].duration))
    decreases |order|
  {
    if |order| > 0 {
      var k := order[0];
      var rest := order[1..];
      assert forall i :: 1 <= i < |order| ==> order[i] == rest[i - 1];
      var a := s[k];
      if !ResourcesExceeded(avail, a.resources, t, t + a.duration) {
        var s1, a1 := s[k := Started(a, t)], Debit(avail, t, a.duration, a.resources);
        assert Committable(s1, a1, rest, t);
        CommitChoices(s1, a1, rest, t);
        CommitFirst(s, avail, order, t);
        assert forall i :: 1 <= i < |order| ==> s1[order[i]] == s[order[i]];
      } else {
        CommitChoices(s, avail, rest, t);
        CommitFrame(s, avail, rest, t);
        var a' := Commit(s, avail, order, t).1;
        ExceededPersists(avail, a', a.resources, t, t + a.duration);
      }
    }
  }

  /** The first activity the commit loop is given is scheduled when it fits. */
  lemma CommitFirst(s: seq<Activity>, avail: seq<int>, order: seq<nat>, t: int)
    requires Committable(s, avail, order, t) && |order| > 0
    requires !ResourcesExceeded(avail, s[order[0]].resources, t, t + s[order[0]].duration)
    ensures Commit(s, avail, order, t).0[order[0]] == Started(s[order[0]], t)
  {
    var k := order[0];
    assert forall j :: j in order[1..] ==> j != k;
    CommitFrame(s[k := Started(s[k], t)], Debit(avail, t, s[k].duration, s[k].resources), order[1..], t);
  }

  /** The commit loop keeps the ledger booking exactly the scheduled activities, with
      no slot below zero. */
  lemma {:induction false} CommitLedger(s: seq<Activity>, avail: seq<int>, rMax: int, order: seq<nat>, t: int)
    requires Committable(s, avail, order, t)
    requires Booked(s, avail, rMax) && NonNegative(avail)
    ensures Booked(Commit(s, avail, order, t).0, Commit(s, avail, order, t).1, rMax)
    ensures NonNegative(Commit(s, avail, order, t).1)
    decreases |order|
  {
    if |order| > 0 {
      var k := order[0];
      var rest := order[1..];
      assert forall i :: 1 <= i < |order| ==> order[i] == rest[i - 1];
      var a := s[k];
      if !ResourcesExceeded(avail, a.resources, t, t + a.duration) {
        var s1, a1 := s[k := Started(a, t)], Debit(avail, t, a.duration, a.resources);
        ScheduleKeepsBooked(s, avail, rMax, k, t);
        assert Committable(s1, a1, rest, t);
        CommitLedger(s1, a1, rMax, rest, t);
      } else {
        CommitLedger(s, avail, rMax, rest, t);
      }
    }
  }

  /** A window that does not fit a ledger does not fit one with less in every slot. */
  lemma ExceededPersists(avail: seq<int>, after: seq<int>, resources: nat, lo: int, hi: int)
    requires 0 <= lo && hi <= |avail| == |after|
    requires forall u :: 0 <= u < |avail| ==> after[u] <= avail[u]
    requires ResourcesExceeded(avail, resources, lo, hi)
    ensures ResourcesExceeded(after, resources, lo, hi)
  {
  }

  /** One for each activity not yet scheduled. */
  function PendingMark(a: Activity): int
  {
    if IsScheduled(a) then 0 else 1
  }

  /** How many activities are not scheduled yet. */
  function Pending(s: seq<Activity>): int
  {
    Sum(s, PendingMark)
  }

  /** Scheduling more activities lowers the count of pending ones, strictly when some
      activity becomes scheduled. */
  lemma {:induction false} PendingDrops(s: seq<Activity>, s': seq<Activity>)
    requires |s'| == |s|
    requires forall k :: 0 <= k < |s| ==> IsScheduled(s[k]) ==> IsScheduled(s'[k])
    ensures Pending(s') <= Pending(s)
    ensures (exists k :: 0 <= k < |s| && !IsScheduled(s[k]) && IsScheduled(s'[k])) ==> Pending(s') < Pending(s)
    ensures Pending(s') >= 0
    decreases |s|
  {
    if |s| > 0 {
      var n := |s| - 1;
      PendingDrops(s[..n], s'[..n]);
      assert s == s[..n] + [s[n]] && s' == s'[..n] + [s'[n]];
      SumAppend(s[..n], [s[n]], PendingMark);
      SumAppend(s'[..n], [s'[n]], PendingMark);
      if exists k :: 0 <= k < |s| && !IsScheduled(s[k]) && IsScheduled(s'[k]) {
        var k :| 0 <= k < |s| && !IsScheduled(s[k]) && IsScheduled(s'[k]);
        if k < n {
          assert !IsScheduled(s[..n][k]) && IsScheduled(s'[..n][k]);
        }
      }
    }
  }

  /** The latest actual end of a scheduled activity, 0 when none is. */
  function Horizon(s: seq<Activity>): int
    decreases |s|
  {
    if |s| == 0 then 0
    else
      var last := s[|s| - 1];
      Max(Horizon(s[..|s| - 1]), if last.actualEnd.Some? then last.actualEnd.value else 0)
  }

  /** The horizon bounds every actual end, and depends on the actual ends alone. */
  lemma {:induction false} HorizonBounds(s: seq<Activity>, s': seq<Activity>)
    requires |s'| == |s| && forall k :: 0 <= k < |s| ==> s'[k].actualEnd == s[k].actualEnd
    ensures forall k :: 0 <= k < |s| && s[k].actualEnd.Some? ==> s[k].actualEnd.value <= Horizon(s)
    ensures Horizon(s') == Horizon(s)
    decreases |s|
  {
    if |s| > 0 {
      var n := |s| - 1;
      HorizonBounds(s[..n], s'[..n]);
      assert forall k :: 0 <= k < n ==> s[k] == s[..n][k];
    }
  }

  /** The priority the parallel method and PHM give an activity: its time reserve. */
  function Reserved(a: Activity): Activity
  {
    a.(priority := a.timeReserve)
  }

  /** The priority PHMDP gives an activity at `t`: its latest start less `t`. */
  function Reprioritised(a: Activity, t: int): Activity
    requires a.latestStart.Some?
  {
    a.(priority := Some(a.latestStart.value - t))
  }

  /** `_init_activity_priorities`: the parallel method and PHM set every activity's
      priority to its time reserve; PHMDP's override assigns nothing. */
  method InitActivityPriorities(h: HeuristicMethod, policy: Priorities)
    modifies h.Acts()
    ensures policy == TimeReserves ==>
      forall k :: 0 <= k < h.Acts().Length ==> h.Acts()[k] == Reserved(old(h.Acts()[k]))
    ensures policy == DynamicPriorities ==> h.Acts()[..] == old(h.Acts()[..])
  {
    if policy == TimeReserves {
      var acts := h.cpm.project.activities;
      var k := 0;
      while k < acts.Length
        invariant 0 <= k <= acts.Length
        invariant forall j :: 0 <= j < k ==> acts[j] == Reserved(old(acts[j]))
        invariant forall j :: k <= j < acts.Length ==> acts[j] == old(acts[j])
      {
        acts[k] := acts[k].(priority := acts[k].timeReserve);
        k := k + 1;
      }
    }
  }

  /** `_update_priorities(t)`: nothing for PHM; PHMDP sets every activity's priority
      to its latest start less `t`, and changes nothing else. */
  method UpdatePriorities(h: HeuristicMethod, policy: Priorities, t: int)
    requires policy == DynamicPriorities ==> forall k :: 0 <= k < h.Acts().Length ==> h.Acts()[k].latestStart.Some?
    modifies h.Acts()
    ensures policy == TimeReserves ==> h.Acts()[..] == old(h.Acts()[..])
    ensures policy == DynamicPriorities ==>
      forall k :: 0 <= k < h.Acts().Length ==> h.Acts()[k] == Reprioritised(old(h.Acts()[k]), t)
  {
    if policy == DynamicPriorities {
      var acts := h.cpm.project.activities;
      var k := 0;
      while k < acts.Length
        invariant 0 <= k <= acts.Length
        invariant forall j :: 0 <= j < k ==> acts[j] == Reprioritised(old(acts[j]), t)
        invariant forall j :: k <= j < acts.Length ==> acts[j] == old(acts[j])
      {
        acts[k] := acts[k].(priority := Some(acts[k].latestStart.value - t));
        k := k + 1;
      }
    }
  }

  /** `_activity_is_viable(act, t)`: false when a predecessor has not finished by `t`;
      otherwise the ledger is extended to the slot of the tentative end, and the
      answer is whether the window from `t` fits the ledger as it stood. */
  method ActivityIsViable(h: HeuristicMethod, k: nat, t: int) returns (b: bool)
    requires k < h.Acts().Length && 0 <= t && h.Acts()[k].predecessors.Some?
    modifies h
    ensures b == (PredecessorsFinished(h.Acts()[..], h.Acts()[k], t) &&
                  !Conflict(old(h.availableResources), h.RMax(), t, h.Acts()[k].duration, h.Acts()[k].resources))
    ensures h.availableResources ==
      if PredecessorsFinished(h.Acts()[..], h.Acts()[k], t)
      then Grow(old(h.availableResources), h.RMax(), t + h.Acts()[k].duration + 1)
      else old(h.availableResources)
  {
    var acts := h.cpm.project.activities;
    ghost var avail0 := h.availableResources;
    var a := acts[k];
    if !PredecessorsFinished(acts[..], a, t) {
      return false;
    }
    var tentativeEnd := t + a.duration;
    h.InitMissingUntil(tentativeEnd);
    assert h.availableResources == Grow(avail0, h.RMax(), t + a.duration + 1);
    ExceededIsConflict(avail0, h.availableResources, h.RMax(), t, a.duration, a.resources);
    if ResourcesExceeded(h.availableResources, a.resources, t, tentativeEnd) {
      return false;
    }
    return true;
  }

  /** How far `_activity_is_viable` extends the ledger for `a`: to the slot of its
      tentative end when it is unscheduled with its predecessors finished. */
  function Reach(s: seq<Activity>, t: int, a: Activity): int
  {
    if !IsScheduled(a) && PredecessorsFinished(s, a, t) then t + a.duration + 1 else 0
  }

  /** The furthest reach among the activities of `prefix`. */
  function FurthestReach(s: seq<Activity>, t: int, prefix: seq<Activity>): int
    decreases |prefix|
  {
    if |prefix| == 0 then 0
    else Max(FurthestReach(s, t, prefix[..|prefix| - 1]), Reach(s, t, prefix[|prefix| - 1]))
  }

  /** `_get_viable_activities(t)`: the viable activities in list order.  The ledger
      ends up extended to the furthest tentative end among the unscheduled activities
      whose predecessors have finished, so it holds the window of each viable one. */
  method GetViableActivities(h: HeuristicMethod, t: int) returns (viable: seq<nat>)
    requires 0 <= t && forall k :: 0 <= k < h.Acts().Length ==> h.Acts()[k].predecessors.Some?
    modifies h
    ensures viable == Viable(h.Acts()[..], old(h.availableResources), h.RMax(), t)
    ensures h.availableResources == Grow(old(h.availableResources), h.RMax(), FurthestReach(h.Acts()[..], t, h.Acts()[..]))
    ensures forall k :: k in viable ==> t + h.Acts()[k].duration < |h.availableResources|
  {
    var acts := h.cpm.project.activities;
    ghost var s := acts[..];
    ghost var avail0 := h.availableResources;
    ghost var rMax := h.RMax();
    forall j | 0 <= j < |s|
      ensures s[j].predecessors.Some?
    {
      assert s[j] == h.Acts()[j];
    }
    viable := [];
    var k := 0;
    while k < acts.Length
      invariant 0 <= k <= acts.Length
      invariant viable == IndicesWhere(s[..k], ViableWhere(s, avail0, rMax, t))
      invariant h.availableResources == Grow(avail0, rMax, FurthestReach(s, t, s[..k]))
      invariant forall j :: j in viable ==> t + s[j].duration < |h.availableResources|
      invariant acts[..] == s
    {
      ghost var availK := h.availableResources;
      var b := false;
      if !IsScheduled(acts[k]) {
        b := ActivityIsViable(h, k, t);
      }
      GatherStep(s, avail0, rMax, t, k, viable, availK, h.availableResources, b);
      if b {
        viable := viable + [k];
      }
      k := k + 1;
    }
    assert s[..acts.Length] == s;
  }

  /** One position of the loop of `_get_viable_activities`: what `_activity_is_viable`
      answered (`b`) and how it left the ledger (`after`) extend the loop's
      invariant by position `k`. */
  lemma GatherStep(s: seq<Activity>, avail0: seq<int>, rMax: int, t: int, k: nat, viable: seq<nat>,
                   before: seq<int>, after: seq<int>, b: bool)
    requires k < |s| && 0 <= t && s[k].predecessors.Some?
    requires viable == IndicesWhere(s[..k], ViableWhere(s, avail0, rMax, t))
    requires before == Grow(avail0, rMax, FurthestReach(s, t, s[..k]))
    requires forall j :: j in viable ==> t + s[j].duration < |before|
    requires IsScheduled(s[k]) ==> after == before && !b
    requires !IsScheduled(s[k]) ==>
      b == (PredecessorsFinished(s, s[k], t) && !Conflict(before, rMax, t, s[k].duration, s[k].resources))
    requires !IsScheduled(s[k]) ==>
      after == if PredecessorsFinished(s, s[k], t) then Grow(before, rMax, t + s[k].duration + 1) else before
    ensures (if b then viable + [k] else viable) == IndicesWhere(s[..k + 1], ViableWhere(s, avail0, rMax, t))
    ensures after == Grow(avail0, rMax, FurthestReach(s, t, s[..k + 1]))
    ensures forall j :: j in (if b then viable + [k] else viable) ==> t + s[j].duration < |after|
  {
    assert s[..k + 1][..k] == s[..k];
    var len := FurthestReach(s, t, s[..k]);
    ConflictOfGrow(avail0, rMax, len, t, s[k].duration, s[k].resources);
    GrowTwice(avail0, rMax, len, Reach(s, t, s[k]));
  }

  /** The order `_sort_by_priority_and_id` compares positions by. */
  function KeyOf(s: seq<Activity>): nat -> seq<int>
  {
    (k: nat) => if k < |s| then PriorityKey(s[k]) else []
  }

  /** `_sort_by_priority_and_id`: the viable activities, ascending by (priority, id). */
  method SortByPriorityAndId(h: HeuristicMethod, viable: seq<nat>) returns (order: array<nat>)
    ensures fresh(order)
    ensures multiset(order[..]) == multiset(viable)
    ensures SortedBy(order[..], KeyOf(h.Acts()[..]))
  {
    order := new nat[|viable|](i requires 0 <= i < |viable| => viable[i]);
    assert order[..] == viable;
    SortByKey(order, KeyOf(h.cpm.project.activities[..]));
  }

  /** The commit loop of `solve`: each activity of `order` in turn is scheduled at
      `t` when its window still fits the live ledger. */
  method CommitAt(h: HeuristicMethod, order: array<nat>, t: int)
    requires 0 <= t && WindowsHeld(h.Acts()[..], h.availableResources, order[..], t)
    modifies h, h.Acts()
    ensures (h.Acts()[..], h.availableResources) == Commit(old(h.Acts()[..]), old(h.availableResources), order[..], t)
  {
    var acts := h.cpm.project.activities;
    ghost var o := order[..];
    ghost var target := Commit(acts[..], h.availableResources, o, t);
    var j := 0;
    while j < order.Length
      invariant 0 <= j <= order.Length && o == order[..]
      invariant WindowsHeld(acts[..], h.availableResources, o, t)
      invariant Commit(acts[..], h.availableResources, o[j..], t) == target
    {
      var k := order[j];
      ghost var sj, aj := acts[..], h.availableResources;
      assert k == o[j] && k < |sj| && t + sj[k].duration <= |aj|;
      CommitOne(h, k, t);
      CommitUnfold(sj, aj, acts[..], h.availableResources, o, j, t);
      j := j + 1;
    }
    assert o[order.Length..] == [];
  }

  /** The ledger holds the window from `t` of every activity of `order`. */
  ghost predicate WindowsHeld(s: seq<Activity>, avail: seq<int>, order: seq<nat>, t: int)
  {
    forall i :: 0 <= i < |order| ==> order[i] < |s| && t + s[order[i]].duration <= |avail|
  }

  /** The body of the commit loop: `act` is scheduled at `t` unless the live ledger
      lacks the resources somewhere in its window. */
  method CommitOne(h: HeuristicMethod, k: nat, t: int)
    requires k < h.Acts().Length && 0 <= t && t + h.Acts()[k].duration <= |h.availableResources|
    modifies h, h.Acts()
    ensures var a := old(h.Acts()[k]);
      if !ResourcesExceeded(old(h.availableResources), a.resources, t, t + a.duration)
      then h.Acts()[..] == old(h.Acts()[..])[k := Started(a, t)] &&
           h.availableResources == Debit(old(h.availableResources), t, a.duration, a.resources)
      else h.Acts()[..] == old(h.Acts()[..]) && h.availableResources == old(h.availableResources)
  {
    var a := h.cpm.project.activities[k];
    if !ResourcesExceeded(h.availableResources, a.resources, t, t + a.duration) {
      h.ScheduleActivityFrom(k, t);
    }
  }

  /** One step of the commit loop as `Commit` takes it: from the state `s'`, `avail'`
      that the body of the loop leaves, the rest of the order commits to the same
      end as the whole from `s`, `avail`. */
  lemma CommitUnfold(s: seq<Activity>, avail: seq<int>, s': seq<Activity>, avail': seq<int>,
                     order: seq<nat>, j: nat, t: int)
    requires j < |order| && 0 <= t && WindowsHeld(s, avail, order, t)
    requires var k := order[j];
      if !ResourcesExceeded(avail, s[k].resources, t, t + s[k].duration)
      then s' == s[k := Started(s[k], t)] && avail' == Debit(avail, t, s[k].duration, s[k].resources)
      else s' == s && avail' == avail
    ensures Commit(s', avail', order[j + 1..], t) == Commit(s, avail, order[j..], t)
    ensures WindowsHeld(s', avail', order, t)
  {
    assert order[j..][1..] == order[j + 1..];
  }

  /** `a` without what the schedulers add to it: its actual times and its priority. */
  function Bare(a: Activity): Activity
  {
    a.(actualStart := None, actualEnd := None, priority := None)
  }

  /** The list without what the schedulers add to it. */
  function Bared(s: seq<Activity>): (r: seq<Activity>)
    ensures |r| == |s| && forall k :: 0 <= k < |s| ==> r[k] == Bare(s[k])
  {
    seq(|s|, k requires 0 <= k < |s| => Bare(s[k]))
  }

  /** What the list CPM leaves needs for the parallel loop: what the serial pass needs,
      at least one activity, no priority assigned yet and every latest start set. */
  ghost predicate ParallelReady(s1: seq<Activity>, rMax: int)
  {
    SerialReady(s1, rMax) && |s1| > 0 &&
    forall k :: 0 <= k < |s1| ==> s1[k].priority.None? && s1[k].latestStart.Some?
  }

  /** The state of the parallel loop at decision time `t`: the activities are those
      CPM left (`s1`) but for their actual times and priorities; with the time reserves
      as policy, every priority is the time reserve; every scheduled activity starts
      after its predecessors end; and the ledger books the scheduled activities, has
      no slot below zero and reaches past every actual end. */
  ghost predicate Sched(s1: seq<Activity>, s: seq<Activity>, avail: seq<int>, rMax: int, policy: Priorities, t: int)
  {
    0 <= t && |s| == |s1| && SameActivities(s1, s, policy) && StartsAfterPredecessors(s) &&
    LedgerHolds(s, avail, rMax)
  }

  ghost predicate SameActivities(s1: seq<Activity>, s: seq<Activity>, policy: Priorities)
    requires |s| == |s1|
  {
    (forall k :: 0 <= k < |s| ==> Bare(s[k]) == s1[k]) &&
    (policy == TimeReserves ==> forall k :: 0 <= k < |s| ==> s[k].priority == s[k].timeReserve)
  }

  ghost predicate StartsAfterPredecessors(s: seq<Activity>)
  {
    forall k :: 0 <= k < |s| && IsScheduled(s[k]) ==> s[k].predecessors.Some? && AfterPredecessors(s, k)
  }

  ghost predicate LedgerHolds(s: seq<Activity>, avail: seq<int>, rMax: int)
  {
    Booked(s, avail, rMax) && NonNegative(avail) &&
    forall k :: 0 <= k < |s| && s[k].actualEnd.Some? ==> s[k].actualEnd.value < |avail|
  }

  /** What the loop state says of each activity. */
  lemma SchedFacts(s1: seq<Activity>, s: seq<Activity>, avail: seq<int>, rMax: int, policy: Priorities, t: int)
    requires ParallelReady(s1, rMax) && Sched(s1, s, avail, rMax, policy, t)
    ensures 0 <= rMax && |s| > 0
    ensures forall k :: 0 <= k < |s| ==>
      s[k].latestStart.Some? && s[k].resources <= rMax && s[k].predecessors == s1[k].predecessors &&
      Placed(s[k], |avail|)
    ensures PredecessorsFirst(s)
  {
    assert Bare(s[0]) == s1[0];
    assert forall k :: 0 <= k < |s| ==> Bare(s[k]) == s1[k];
  }

  /** Changing priorities alone keeps the loop state, the pending count and the horizon. */
  lemma PrioritiesKeep(s1: seq<Activity>, s: seq<Activity>, sp: seq<Activity>, avail: seq<int>, rMax: int,
                       policy: Priorities, t: int)
    requires Sched(s1, s, avail, rMax, policy, t)
    requires |sp| == |s| && forall k :: 0 <= k < |s| ==> sp[k] == s[k].(priority := sp[k].priority)
    requires policy == TimeReserves ==> sp == s
    ensures Sched(s1, sp, avail, rMax, policy, t)
    ensures Pending(sp) == Pending(s) && Horizon(sp) == Horizon(s) && 0 <= Pending(sp)
    ensures UnfinishedExist(s, t) ==> UnfinishedExist(sp, t)
  {
    PendingDrops(s, sp);
    PendingDrops(sp, s);
    HorizonBounds(s, sp);
    forall u | 0 <= u < |avail|
      ensures Usage(sp, u) == Usage(s, u)
    {
      SumPointwise(sp, DemandAt(u), s, DemandAt(u));
    }
    assert forall k :: 0 <= k < |s| ==> Bare(sp[k]) == Bare(s[k]);
    if UnfinishedExist(s, t) {
      var k :| 0 <= k < |s| && !IsFinished(s[k], t);
      assert !IsFinished(sp[k], t);
    }
  }

  /** Extending the ledger with slots at a non-negative `r_max` keeps it holding. */
  lemma ExtendKeepsLedger(s: seq<Activity>, avail: seq<int>, after: seq<int>, rMax: int)
    requires LedgerHolds(s, avail, rMax) && Extends(avail, after, rMax) && 0 <= rMax
    ensures LedgerHolds(s, after, rMax)
  {
    ExtendKeepsBooked(s, avail, after, rMax);
  }

  /** A list without repeats has each element at most once. */
  lemma {:induction false} DistinctCount(b: seq<nat>, x: nat)
    requires Distinct(b)
    ensures multiset(b)[x] <= 1
    decreases |b|
  {
    if |b| > 0 {
      assert b == [b[0]] + b[1..];
      assert Distinct(b[1..]) by {
        assert forall i :: 1 <= i < |b| ==> b[1..][i - 1] == b[i];
      }
      DistinctCount(b[1..], x);
      if b[0] == x {
        assert forall i :: 0 <= i < |b[1..]| ==> b[1..][i] != x;
        assert x !in multiset(b[1..]);
      }
    }
  }

  /** A permutation of a list without repeats has none. */
  lemma DistinctPermutation(a: seq<nat>, b: seq<nat>)
    requires multiset(a) == multiset(b) && Distinct(b)
    ensures Distinct(a)
  {
    forall i, j | 0 <= i < j < |a|
      ensures a[i] != a[j]
    {
      if a[i] == a[j] {
        assert a == a[..i] + [a[i]] + a[i + 1..j] + [a[j]] + a[j + 1..];
        assert multiset(a)[a[i]] >= 2;
        DistinctCount(b, a[i]);
      }
    }
  }

  /** The sorted viable list can be handed to the commit loop. */
  lemma OrderCommittable(sp: seq<Activity>, avail0: seq<int>, availV: seq<int>, rMax: int, t: int,
                         viable: seq<nat>, order: seq<nat>)
    requires 0 <= t && Booked(sp, availV, rMax)
    requires viable == Viable(sp, avail0, rMax, t)
    requires forall k :: k in viable ==> t + sp[k].duration < |availV|
    requires multiset(order) == multiset(viable)
    ensures Committable(sp, availV, order, t)
    ensures forall i :: 0 <= i < |order| ==> order[i] in viable
  {
    assert forall i :: 0 <= i < |order| ==> order[i] in multiset(viable);
    DistinctPermutation(order, viable);
    forall i | 0 <= i < |order|
      ensures order[i] < |sp| && Unstarted(sp[order[i]])
    {
      assert Placed(sp[order[i]], |availV|);
    }
  }

  /** The commit loop keeps the activities CPM left, the priorities, and the
      precedence of every scheduled activity. */
  lemma CommitKeepsShape(s1: seq<Activity>, sp: seq<Activity>, s': seq<Activity>, avail0: seq<int>, availV: seq<int>,
                         rMax: int, policy: Priorities, t: int, viable: seq<nat>, order: seq<nat>)
    requires Sched(s1, sp, availV, rMax, policy, t)
    requires viable == Viable(sp, avail0, rMax, t)
    requires Committable(sp, availV, order, t) && forall i :: 0 <= i < |order| ==> order[i] in viable
    requires |s'| == |sp|
    requires forall k :: 0 <= k < |sp| && k !in order ==> s'[k] == sp[k]
    requires forall i :: 0 <= i < |order| ==> s'[order[i]] == Started(sp[order[i]], t) || s'[order[i]] == sp[order[i]]
    ensures SameActivities(s1, s', policy) && StartsAfterPredecessors(s')
  {
    forall k | 0 <= k < |sp|
      ensures Bare(s'[k]) == Bare(sp[k]) && s'[k].priority == sp[k].priority
      ensures s'[k].predecessors == sp[k].predecessors
      ensures IsScheduled(sp[k]) ==> s'[k] == sp[k]
    {
      if k in order {
        var i :| 0 <= i < |order| && order[i] == k;
      }
    }
    forall k | 0 <= k < |s'| && IsScheduled(s'[k])
      ensures s'[k].predecessors.Some? && AfterPredecessors(s', k)
    {
      if IsScheduled(sp[k]) {
        assert AfterPredecessors(sp, k);
      } else {
        var i :| 0 <= i < |order| && order[i] == k;
        assert k in viable;
        assert PredecessorsFinished(sp, sp[k], t);
        assert s'[k] == Started(sp[k], t);
      }
    }
  }

  /** The commit loop keeps the ledger holding. */
  lemma CommitKeepsLedger(sp: seq<Activity>, availV: seq<int>, rMax: int, t: int, order: seq<nat>)
    requires LedgerHolds(sp, availV, rMax) && Committable(sp, availV, order, t)
    requires forall i :: 0 <= i < |order| ==> t + sp[order[i]].duration < |availV|
    ensures LedgerHolds(Commit(sp, availV, order, t).0, Commit(sp, availV, order, t).1, rMax)
  {
    CommitLedger(sp, availV, rMax, order, t);
    CommitFrame(sp, availV, order, t);
    CommitChoices(sp, availV, order, t);
    var s' := Commit(sp, availV, order, t).0;
    forall k | 0 <= k < |s'| && s'[k].actualEnd.Some?
      ensures s'[k].actualEnd.value < |availV|
    {
      if k in order {
        var i :| 0 <= i < |order| && order[i] == k;
      }
    }
  }

  /** When something is viable, the commit loop schedules at least the first activity
      of the sorted list. */
  lemma CommitProgresses(sp: seq<Activity>, avail0: seq<int>, availV: seq<int>, rMax: int, t: int,
                         viable: seq<nat>, order: seq<nat>)
    requires Committable(sp, availV, order, t) && |order| > 0 && order[0] in viable
    requires viable == Viable(sp, avail0, rMax, t) && Extends(avail0, availV, rMax)
    ensures 0 <= Pending(Commit(sp, availV, order, t).0) < Pending(sp)
  {
    var k := order[0];
    ExceededIsConflict(avail0, availV, rMax, t, sp[k].duration, sp[k].resources);
    CommitFirst(sp, availV, order, t);
    CommitFrame(sp, availV, order, t);
    CommitChoices(sp, availV, order, t);
    var s' := Commit(sp, availV, order, t).0;
    assert forall j :: 0 <= j < |sp| && IsScheduled(sp[j]) ==> IsScheduled(s'[j]);
    PendingDrops(sp, s');
  }

  /** The first activity not yet scheduled, all before it being scheduled. */
  lemma {:induction false} FirstUnscheduled(s: seq<Activity>) returns (m: int)
    requires exists k :: 0 <= k < |s| && !IsScheduled(s[k])
    ensures 0 <= m < |s| && !IsScheduled(s[m]) && forall j :: 0 <= j < m ==> IsScheduled(s[j])
    decreases |s|
  {
    if !IsScheduled(s[0]) {
      m := 0;
    } else {
      var k :| 0 <= k < |s| && !IsScheduled(s[k]);
      assert !IsScheduled(s[1..][k - 1]);
      var m' := FirstUnscheduled(s[1..]);
      assert forall j :: 1 <= j < |s| ==> s[j] == s[1..][j - 1];
      m := m' + 1;
    }
  }

  /** The decision time never stalls: when some activity is unfinished and none is
      running, the first unscheduled activity has all its predecessors finished and a
      free ledger from `t` on, so it is viable. */
  lemma StallMeansViable(s: seq<Activity>, avail: seq<int>, rMax: int, t: int)
    requires PredecessorsFirst(s) && Booked(s, avail, rMax)
    requires forall k :: 0 <= k < |s| ==> s[k].resources <= rMax
    requires UnfinishedExist(s, t)
    requires forall k :: 0 <= k < |s| ==> !Running(s[k], t)
    ensures Viable(s, avail, rMax, t) != []
  {
    var k :| 0 <= k < |s| && !IsFinished(s[k], t);
    assert !IsScheduled(s[k]);
    var m := FirstUnscheduled(s);
    var a := s[m];
    forall p | p in a.predecessors.value
      ensures 0 <= p < |s| && IsFinished(s[p], t)
    {
      assert IsScheduled(s[p]) && !Running(s[p], t);
    }
    forall u | t <= u < t + a.duration
      ensures a.resources <= Slot(avail, rMax, u)
    {
      forall j | 0 <= j < |s|
        ensures DemandAt(u)(s[j]) == 0
      {
        assert Placed(s[j], |avail|);
        assert !Running(s[j], t);
      }
      SumZero(s, DemandAt(u));
    }
    assert ViableAt(s, avail, rMax, t, a);
    assert m in Viable(s, avail, rMax, t);
  }

  /** What one decision time does to the loop state: it schedules at least one more
      activity, or, scheduling none, it moves the time forward to an actual end, no
      later than the horizon. */
  ghost predicate Advanced(s: seq<Activity>, s': seq<Activity>, t: int, next: int)
  {
    0 <= Pending(s') &&
    (Pending(s') < Pending(s) ||
     (Pending(s') == Pending(s) && Horizon(s') == Horizon(s) && t < next <= Horizon(s')))
  }

  /** The commit half of a decision time with a non-empty viable list: the loop state
      holds after the commit loop, and at least one more activity is scheduled. */
  lemma CommitStep(s1: seq<Activity>, sp: seq<Activity>, avail0: seq<int>, availV: seq<int>, rMax: int,
                   policy: Priorities, t: int, viable: seq<nat>, order: seq<nat>)
    requires Sched(s1, sp, availV, rMax, policy, t)
    requires viable == Viable(sp, avail0, rMax, t) && |viable| > 0 && Extends(avail0, availV, rMax)
    requires forall k :: k in viable ==> t + sp[k].duration < |availV|
    requires multiset(order) == multiset(viable)
    ensures Committable(sp, availV, order, t)
    ensures Sched(s1, Commit(sp, availV, order, t).0, Commit(sp, availV, order, t).1, rMax, policy, t)
    ensures 0 <= Pending(Commit(sp, availV, order, t).0) < Pending(sp)
  {
    OrderCommittable(sp, avail0, availV, rMax, t, viable, order);
    var c := Commit(sp, availV, order, t);
    CommitFrame(sp, availV, order, t);
    CommitChoices(sp, availV, order, t);
    CommitKeepsShape(s1, sp, c.0, avail0, availV, rMax, policy, t, viable, order);
    CommitKeepsLedger(sp, availV, rMax, t, order);
    assert |order| > 0 by {
      assert |multiset(order)| == |multiset(viable)|;
    }
    CommitProgresses(sp, avail0, availV, rMax, t, viable, order);
  }

  /** A decision time with an empty viable list: some activity is running, and every
      actual end lies within the horizon. */
  lemma StallStep(s1: seq<Activity>, sp: seq<Activity>, avail0: seq<int>, rMax: int, policy: Priorities, t: int)
    requires ParallelReady(s1, rMax) && Sched(s1, sp, avail0, rMax, policy, t)
    requires UnfinishedExist(sp, t) && Viable(sp, avail0, rMax, t) == []
    ensures exists k :: 0 <= k < |sp| && Running(sp[k], t)
    ensures forall k :: 0 <= k < |sp| && sp[k].actualEnd.Some? ==> sp[k].actualEnd.value <= Horizon(sp)
  {
    SchedFacts(s1, sp, avail0, rMax, policy, t);
    if forall k :: 0 <= k < |sp| ==> !Running(sp[k], t) {
      StallMeansViable(sp, avail0, rMax, t);
      assert false;
    }
    HorizonBounds(sp, sp);
  }

  /** The activities with their priorities as `_update_priorities(t)` leaves them:
      unchanged under the time reserves; under PHMDP, each one's latest start less `t`. */
  function Refreshed(s: seq<Activity>, policy: Priorities, t: int): (r: seq<Activity>)
    ensures |r| == |s|
  {
    seq(|s|, k requires 0 <= k < |s| =>
      if policy == DynamicPriorities && s[k].latestStart.Some? then Reprioritised(s[k], t) else s[k])
  }

  /** An order the commit loop may take at `t`: the activities viable at `t`, each
      once, ascending by (priority, id). */
  ghost predicate CommitOrder(sp: seq<Activity>, avail: seq<int>, rMax: int, t: int, order: seq<nat>)
  {
    multiset(order) == multiset(Viable(sp, avail, rMax, t)) && SortedBy(order, KeyOf(sp))
  }

  /** The gathering and commit half of a decision time, from the activities `sp` with
      their priorities refreshed and the ledger `avail`: the ledger grows to the
      furthest tentative end, and the viable activities are committed at `t` in
      (priority, id) order, each while it still fits. */
  ghost predicate Decided(sp: seq<Activity>, avail: seq<int>, rMax: int, t: int, s': seq<Activity>, avail': seq<int>)
  {
    exists order :: CommitOrder(sp, avail, rMax, t, order) &&
      (s', avail') == Commit(sp, Grow(avail, rMax, FurthestReach(sp, t, sp)), order, t)
  }

  /** One decision time of `solve`, from activities `s`, ledger `avail` and time `t` to
      `s'`, `avail'` and the next time `next`: the priorities are refreshed, the viable
      activities committed as `Decided` says, and the next time is the earliest actual
      end among the running activities, or the project start when none is running. */
  ghost predicate Decision(s: seq<Activity>, avail: seq<int>, rMax: int, policy: Priorities, start: int, t: int,
                           s': seq<Activity>, avail': seq<int>, next: int)
  {
    Decided(Refreshed(s, policy, t), avail, rMax, t, s', avail') &&
    (forall k :: 0 <= k < |s'| ==> IsScheduled(s'[k]) ==> s'[k].actualEnd.Some?) &&
    next == NextFinish(s', t, start)
  }

  /** The state of the loop of `solve` at one decision time. */
  datatype Moment = Moment(acts: seq<Activity>, avail: seq<int>, time: int)

  /** A run of the loop of `solve`: at every moment but the last some activity is
      unfinished and one decision time leads to the next moment; at the last moment
      every activity is finished. */
  ghost predicate Run(run: seq<Moment>, rMax: int, policy: Priorities, start: int)
  {
    |run| > 0 && !UnfinishedExist(run[|run| - 1].acts, run[|run| - 1].time) && Chain(run, rMax, policy, start)
  }

  /** Each moment of `run` but the last leads to the next by one turn of the loop. */
  ghost predicate Chain(run: seq<Moment>, rMax: int, policy: Priorities, start: int)
  {
    forall j :: 0 <= j < |run| - 1 ==> Moves(run[j], run[j + 1], rMax, policy, start)
  }

  /** A turn from the last moment of a chain extends the chain. */
  lemma ChainGrows(run: seq<Moment>, n: Moment, rMax: int, policy: Priorities, start: int)
    requires |run| > 0 && Chain(run, rMax, policy, start) && Moves(run[|run| - 1], n, rMax, policy, start)
    ensures Chain(run + [n], rMax, policy, start)
  {
    var run' := run + [n];
    forall j | 0 <= j < |run'| - 1
      ensures Moves(run'[j], run'[j + 1], rMax, policy, start)
    {
      if j < |run| - 1 {
        assert run'[j] == run[j] && run'[j + 1] == run[j + 1];
      }
    }
  }

  /** One turn of the loop of `solve` from moment `m` to moment `n`. */
  ghost predicate Moves(m: Moment, n: Moment, rMax: int, policy: Priorities, start: int)
  {
    UnfinishedExist(m.acts, m.time) && Decision(m.acts, m.avail, rMax, policy, start, m.time, n.acts, n.avail, n.time)
  }

  /** One decision time of `solve`: the priorities are updated, the viable activities
      gathered, sorted by (priority, id) and committed at `t` while they fit, and the
      time moves to the next actual end, or to the project start when none is
      running. */
  method Step(h: HeuristicMethod, policy: Priorities, t: int, ghost s1: seq<Activity>) returns (next: int)
    requires ParallelReady(s1, h.RMax()) && 0 <= h.cpm.project.start
    requires Sched(s1, h.Acts()[..], h.availableResources, h.RMax(), policy, t)
    requires UnfinishedExist(h.Acts()[..], t)
    modifies h, h.Acts()
    ensures Sched(s1, h.Acts()[..], h.availableResources, h.RMax(), policy, next)
    ensures Advanced(old(h.Acts()[..]), h.Acts()[..], t, next)
    ensures Decision(old(h.Acts()[..]), old(h.availableResources), h.RMax(), policy, h.cpm.project.start, t,
                     h.Acts()[..], h.availableResources, next)
  {
    var acts := h.cpm.project.activities;
    ghost var s, avail := acts[..], h.availableResources;
    RefreshPriorities(h, policy, t, s1);
    ghost var sp := acts[..];
    var committed := CommitViable(h, policy, t, s1);
    ghost var s', avail' := acts[..], h.availableResources;
    assert Decided(Refreshed(s, policy, t), avail, h.RMax(), t, s', avail') by {
      assert sp == Refreshed(s, policy, t);
    }
    next := NextFinish(acts[..], t, h.cpm.project.start);
  }

  /** The first part of a decision time: `_update_priorities(t)`, which refreshes
      the priorities, keeps the loop state and leaves what the loop counts
      untouched. */
  method RefreshPriorities(h: HeuristicMethod, policy: Priorities, t: int, ghost s1: seq<Activity>)
    requires ParallelReady(s1, h.RMax())
    requires Sched(s1, h.Acts()[..], h.availableResources, h.RMax(), policy, t)
    requires UnfinishedExist(h.Acts()[..], t)
    modifies h.Acts()
    ensures Sched(s1, h.Acts()[..], h.availableResources, h.RMax(), policy, t)
    ensures UnfinishedExist(h.Acts()[..], t) && 0 <= Pending(h.Acts()[..])
    ensures Pending(h.Acts()[..]) == old(Pending(h.Acts()[..])) && Horizon(h.Acts()[..]) == old(Horizon(h.Acts()[..]))
    ensures h.Acts()[..] == Refreshed(old(h.Acts()[..]), policy, t)
  {
    ghost var s := h.Acts()[..];
    SchedFacts(s1, s, h.availableResources, h.RMax(), policy, t);
    UpdatePriorities(h, policy, t);
    assert h.Acts()[..] == Refreshed(s, policy, t);
    PrioritiesKeep(s1, s, h.Acts()[..], h.availableResources, h.RMax(), policy, t);
  }

  /** The second part of a decision time: the viable activities are gathered, sorted
      and committed, as `Decided` says.  Either one more activity is scheduled, or
      (`committed` false) nothing was viable, the activities are as they were, and
      one of them is running. */
  method CommitViable(h: HeuristicMethod, policy: Priorities, t: int, ghost s1: seq<Activity>) returns (committed: bool)
    requires ParallelReady(s1, h.RMax())
    requires Sched(s1, h.Acts()[..], h.availableResources, h.RMax(), policy, t)
    requires UnfinishedExist(h.Acts()[..], t) && 0 <= Pending(h.Acts()[..])
    modifies h, h.Acts()
    ensures Sched(s1, h.Acts()[..], h.availableResources, h.RMax(), policy, t) && 0 <= Pending(h.Acts()[..])
    ensures committed ==> Pending(h.Acts()[..]) < old(Pending(h.Acts()[..]))
    ensures !committed ==> h.Acts()[..] == old(h.Acts()[..])
    ensures !committed ==> exists k :: 0 <= k < h.Acts().Length && Running(h.Acts()[k], t)
    ensures !committed ==>
      forall k :: 0 <= k < h.Acts().Length && h.Acts()[k].actualEnd.Some? ==>
        h.Acts()[k].actualEnd.value <= Horizon(h.Acts()[..])
    ensures committed <==> |Viable(old(h.Acts()[..]), old(h.availableResources), h.RMax(), t)| > 0
    ensures Decided(old(h.Acts()[..]), old(h.availableResources), h.RMax(), t, h.Acts()[..], h.availableResources)
  {
    ghost var rMax := h.RMax();
    ghost var sp := h.Acts()[..];
    ghost var avail0 := h.availableResources;
    SchedFacts(s1, sp, avail0, rMax, policy, t);
    var viable := GetViableActivities(h, t);
    ghost var availV := h.availableResources;
    ExtendKeepsLedger(sp, avail0, availV, rMax);
    committed := |viable| > 0;
    if committed {
      ghost var order := CommitSorted(h, policy, t, s1, viable, avail0);
      assert CommitOrder(sp, avail0, rMax, t, order);
    } else {
      StallStep(s1, sp, avail0, rMax, policy, t);
      assert CommitOrder(sp, avail0, rMax, t, []);
      assert Commit(sp, availV, [], t) == (sp, availV);
    }
  }

  /** The viable activities sorted by (priority, id) and committed at `t`: `order`
      is the order they were committed in.  The loop state holds again, and at least
      one more activity is scheduled. */
  method CommitSorted(h: HeuristicMethod, policy: Priorities, t: int, ghost s1: seq<Activity>,
                      viable: seq<nat>, ghost avail0: seq<int>) returns (ghost order: seq<nat>)
    requires Sched(s1, h.Acts()[..], h.availableResources, h.RMax(), policy, t)
    requires viable == Viable(h.Acts()[..], avail0, h.RMax(), t) && |viable| > 0
    requires Extends(avail0, h.availableResources, h.RMax())
    requires forall k :: k in viable ==> t + h.Acts()[k].duration < |h.availableResources|
    modifies h, h.Acts()
    ensures CommitOrder(old(h.Acts()[..]), avail0, h.RMax(), t, order)
    ensures (h.Acts()[..], h.availableResources) == Commit(old(h.Acts()[..]), old(h.availableResources), order, t)
    ensures Sched(s1, h.Acts()[..], h.availableResources, h.RMax(), policy, t)
    ensures 0 <= Pending(h.Acts()[..]) < old(Pending(h.Acts()[..]))
  {
    ghost var sp, availV := h.Acts()[..], h.availableResources;
    var sorted := SortByPriorityAndId(h, viable);
    order := sorted[..];
    CommitStep(s1, sp, avail0, availV, h.RMax(), policy, t, viable, order);
    CommitAt(h, sorted, t);
  }

  /** The loop of `solve`: decision times from 0 until every activity is finished.
      Each decision time schedules another activity or moves forward to an actual
      end, so the loop ends.  `run` records the moments the loop passes through. */
  method DecisionLoop(h: HeuristicMethod, policy: Priorities, ghost s1: seq<Activity>)
    returns (time: int, ghost run: seq<Moment>)
    requires ParallelReady(s1, h.RMax()) && 0 <= h.cpm.project.start
    requires Sched(s1, h.Acts()[..], h.availableResources, h.RMax(), policy, 0)
    requires Covered(h.Acts()[..], h.availableResources, 0)
    modifies h, h.Acts()
    ensures Sched(s1, h.Acts()[..], h.availableResources, h.RMax(), policy, time)
    ensures Covered(h.Acts()[..], h.availableResources, time)
    ensures !UnfinishedExist(h.Acts()[..], time)
    ensures Run(run, h.RMax(), policy, h.cpm.project.start)
    ensures run[0] == Moment(old(h.Acts()[..]), old(h.availableResources), 0)
    ensures run[|run| - 1] == Moment(h.Acts()[..], h.availableResources, time)
  {
    var acts := h.cpm.project.activities;
    time := 0;
    run := [Moment(acts[..], h.availableResources, 0)];
    PendingDrops(acts[..], acts[..]);
    while UnfinishedExist(acts[..], time)
      invariant Sched(s1, acts[..], h.availableResources, h.RMax(), policy, time)
      invariant Covered(acts[..], h.availableResources, time)
      invariant 0 <= Pending(acts[..])
      invariant |run| > 0 && run[0] == Moment(old(acts[..]), old(h.availableResources), 0)
      invariant run[|run| - 1] == Moment(acts[..], h.availableResources, time)
      invariant Chain(run, h.RMax(), policy, h.cpm.project.start)
      decreases Pending(acts[..]), Horizon(acts[..]) - time
    {
      ghost var m := run[|run| - 1];
      time := Step(h, policy, time, s1);
      ghost var n := Moment(acts[..], h.availableResources, time);
      assert Moves(m, n, h.RMax(), policy, h.cpm.project.start);
      DecisionCovers(s1, m.acts, m.avail, h.RMax(), policy, h.cpm.project.start, m.time, n.acts, n.avail, n.time);
      ChainGrows(run, n, h.RMax(), policy, h.cpm.project.start);
      run := run + [n];
    }
  }

  /** The activities as `_init_activity_priorities` leaves them: with the time
      reserves as policy, each one's priority is its time reserve; PHMDP's leaves
      them as they are. */
  function Initialised(s: seq<Activity>, policy: Priorities): (r: seq<Activity>)
    ensures |r| == |s|
  {
    seq(|s|, k requires 0 <= k < |s| => if policy == TimeReserves then Reserved(s[k]) else s[k])
  }

  /** The list `s` and ledger `avail` are where a run of the loop of `solve` ends that
      starts from the list `s1` with its priorities initialised, an empty ledger and
      time 0. */
  ghost predicate Ran(s1: seq<Activity>, rMax: int, policy: Priorities, start: int, s: seq<Activity>, avail: seq<int>)
  {
    exists run: seq<Moment> :: Run(run, rMax, policy, start) && run[0] == Moment(Initialised(s1, policy), [], 0) &&
      run[|run| - 1].acts == s && run[|run| - 1].avail == avail
  }

  /** Activity `k` was among the activities viable at the decision time of moment `m`. */
  ghost predicate ViableThen(m: Moment, rMax: int, policy: Priorities, k: nat)
  {
    k in Viable(Refreshed(m.acts, policy, m.time), m.avail, rMax, m.time)
  }

  /** The commit loop changes an activity only by starting it at `t`, and only an
      activity it is given. */
  lemma {:induction false} CommitStarts(s: seq<Activity>, avail: seq<int>, order: seq<nat>, t: int)
    ensures var c := Commit(s, avail, order, t);
      forall k :: 0 <= k < |s| ==> c.0[k] == s[k] || (k in order && c.0[k] == Started(s[k], t))
    decreases |order|
  {
    if |order| > 0 {
      var k := order[0];
      var rest := order[1..];
      assert forall j :: j in rest ==> j in order;
      if k < |s| && 0 <= t && t + s[k].duration <= |avail| &&
         !ResourcesExceeded(avail, s[k].resources, t, t + s[k].duration) {
        var s' := s[k := Started(s[k], t)];
        CommitStarts(s', Debit(avail, t, s[k].duration, s[k].resources), rest, t);
        assert Started(s'[k], t) == Started(s[k], t);
      } else {
        CommitStarts(s, avail, rest, t);
      }
    }
  }

  /** One turn of the loop leaves an activity's start as it was, or starts the
      activity at that decision time, at which it was viable. */
  lemma DecisionStarts(m: Moment, n: Moment, rMax: int, policy: Priorities, start: int, k: nat)
    requires Moves(m, n, rMax, policy, start) && k < |m.acts|
    ensures |n.acts| == |m.acts|
    ensures n.acts[k].actualStart == m.acts[k].actualStart ||
            (n.acts[k].actualStart == Some(m.time) && ViableThen(m, rMax, policy, k))
  {
    var sp := Refreshed(m.acts, policy, m.time);
    assert Decided(sp, m.avail, rMax, m.time, n.acts, n.avail);
    DecidedStarts(sp, m.avail, rMax, m.time, n.acts, n.avail, k);
    assert sp[k].actualStart == m.acts[k].actualStart;
  }

  /** The gathering and commit half of a decision time at `t` leaves an activity's
      start as it was, or starts the activity at `t`, when it was viable then. */
  lemma DecidedStarts(sp: seq<Activity>, avail: seq<int>, rMax: int, t: int, s': seq<Activity>, avail': seq<int>, k: nat)
    requires Decided(sp, avail, rMax, t, s', avail') && k < |sp|
    ensures |s'| == |sp|
    ensures s'[k].actualStart == sp[k].actualStart ||
            (s'[k].actualStart == Some(t) && k in Viable(sp, avail, rMax, t))
  {
    var grown := Grow(avail, rMax, FurthestReach(sp, t, sp));
    var order: seq<nat> :| CommitOrder(sp, avail, rMax, t, order) && (s', avail') == Commit(sp, grown, order, t);
    CommitStarts(sp, grown, order, t);
    if k in order {
      assert k in multiset(order);
    }
  }

  /** In a run of the loop of `solve`, an activity whose start differs between the
      first and the last moment was started at one of the run's decision times, at
      which it was viable. */
  lemma {:induction false} RunStarts(run: seq<Moment>, rMax: int, policy: Priorities, start: int, k: nat)
    requires Run(run, rMax, policy, start) && k < |run[0].acts|
    ensures |run[|run| - 1].acts| == |run[0].acts|
    ensures run[|run| - 1].acts[k].actualStart == run[0].acts[k].actualStart ||
            exists j :: 0 <= j < |run| - 1 && run[|run| - 1].acts[k].actualStart == Some(run[j].time) &&
              ViableThen(run[j], rMax, policy, k)
    decreases |run|
  {
    if |run| > 1 {
      var rest := run[1..];
      RunTail(run, rMax, policy, start);
      DecisionStarts(run[0], run[1], rMax, policy, start, k);
      RunStarts(rest, rMax, policy, start, k);
      var last := run[|run| - 1].acts[k].actualStart;
      if last != run[0].acts[k].actualStart {
        if last == run[1].acts[k].actualStart {
          assert last == Some(run[0].time) && ViableThen(run[0], rMax, policy, k);
        } else {
          var j :| 0 <= j < |rest| - 1 && last == Some(rest[j].time) && ViableThen(rest[j], rMax, policy, k);
          assert rest[j] == run[j + 1];
        }
      }
    }
  }

  /** A run of more than one moment is a first turn followed by a shorter run. */
  lemma RunTail(run: seq<Moment>, rMax: int, policy: Priorities, start: int)
    requires Run(run, rMax, policy, start) && |run| > 1
    ensures Moves(run[0], run[1], rMax, policy, start) && Run(run[1..], rMax, policy, start)
  {
    var rest := run[1..];
    forall j | 0 <= j < |rest| - 1
      ensures Moves(rest[j], rest[j + 1], rMax, policy, start)
    {
      assert rest[j] == run[j + 1] && rest[j + 1] == run[j + 1 + 1];
    }
  }

  /** Every activity of a schedule the parallel schedulers leave started at a decision
      time at which it was viable, and was committed there in (priority, id) order. */
  lemma StartsWhenViable(s0: seq<Activity>, s: seq<Activity>, avail: seq<int>, rMax: int, policy: Priorities,
                         start: int, planned: Option<int>, actualEnd: Option<int>, k: nat)
    requires ParallelDone(s0, s, avail, rMax, policy, start, planned, actualEnd) && k < |s|
    ensures exists run: seq<Moment>, j ::
      (Run(run, rMax, policy, start) && 0 <= j < |run| - 1 && run[|run| - 1].acts == s &&
       s[k].actualStart == Some(run[j].time) && ViableThen(run[j], rMax, policy, k))
  {
    var run: seq<Moment> :| Run(run, rMax, policy, start) && run[0] == Moment(Initialised(Bared(s), policy), [], 0) &&
      run[|run| - 1].acts == s && run[|run| - 1].avail == avail;
    RunStarts(run, rMax, policy, start, k);
    assert run[0].acts[k].actualStart.None?;
    assert s[k].actualEnd.Some? && s[k].actualStart.Some?;
    var j :| 0 <= j < |run| - 1 && s[k].actualStart == Some(run[j].time) && ViableThen(run[j], rMax, policy, k);
  }

  /** What the parallel schedulers promise of the list CPM was given (`s0`), the list
      they leave (`s`), the ledger and the project's actual end: the activities keep
      what CPM gave them and only gain actual times and priorities (with the time
      reserves as policy, every priority is the time reserve); `s` and the ledger are
      where a run of the decision-time loop ends (`Ran`), so every start was chosen at
      a decision time, among the activities viable then, in (priority, id) order;
      every activity starts after all its predecessors end; no slot is overdrawn or
      above `r_max`; the ledger books exactly the scheduled activities and ends with
      the slot of the project's actual end, which is the latest actual end. */
  ghost predicate ParallelDone(s0: seq<Activity>, s: seq<Activity>, avail: seq<int>, rMax: int, policy: Priorities,
                               start: int, planned: Option<int>, actualEnd: Option<int>)
  {
    Solved(s0, Bared(s), start, planned) && Precedence(s) && ParallelLedgerDone(s, avail, rMax, actualEnd) &&
    (policy == TimeReserves ==> forall k :: 0 <= k < |s| ==> s[k].priority == s[k].timeReserve) &&
    Ran(Bared(s), rMax, policy, start, s, avail)
  }

  ghost predicate ParallelLedgerDone(s: seq<Activity>, avail: seq<int>, rMax: int, actualEnd: Option<int>)
  {
    Booked(s, avail, rMax) &&
    (forall u :: 0 <= u < |avail| ==> 0 <= avail[u] <= rMax) &&
    (forall k :: 0 <= k < |s| ==> s[k].actualEnd.Some?) && |s| > 0 &&
    actualEnd == Some(MaxActualEnd(s)) && |avail| == MaxActualEnd(s) + 1
  }

  /** How far the ledger may reach on account of `a` at decision time `t`: past its
      actual end once it is scheduled, and past its tentative end while
      `_activity_is_viable` would extend the ledger for it. */
  function Cover(s: seq<Activity>, t: int, a: Activity): int
  {
    Max(if a.actualEnd.Some? then a.actualEnd.value + 1 else 0, Reach(s, t, a))
  }

  /** The ledger is no longer than the cover of some activity: every slot was
      added on account of an activity that ends there or may still start at `t`. */
  ghost predicate Covered(s: seq<Activity>, avail: seq<int>, t: int)
  {
    exists k :: 0 <= k < |s| && |avail| <= Cover(s, t, s[k])
  }

  /** The furthest reach bounds every activity's reach and is the reach of one of
      them, or 0. */
  lemma {:induction false} FurthestReachBounds(s: seq<Activity>, t: int, prefix: seq<Activity>)
    requires |prefix| > 0
    ensures forall k :: 0 <= k < |prefix| ==> Reach(s, t, prefix[k]) <= FurthestReach(s, t, prefix)
    ensures exists k :: 0 <= k < |prefix| && FurthestReach(s, t, prefix) <= Max(0, Reach(s, t, prefix[k]))
    decreases |prefix|
  {
    var n := |prefix| - 1;
    var init := prefix[..n];
    assert forall k :: 0 <= k < n ==> prefix[k] == init[k];
    if n > 0 {
      FurthestReachBounds(s, t, init);
      var k :| 0 <= k < n && FurthestReach(s, t, init) <= Max(0, Reach(s, t, init[k]));
      if FurthestReach(s, t, init) >= Reach(s, t, prefix[n]) {
        assert FurthestReach(s, t, prefix) <= Max(0, Reach(s, t, prefix[k]));
      } else {
        assert FurthestReach(s, t, prefix) <= Max(0, Reach(s, t, prefix[n]));
      }
    } else {
      assert FurthestReach(s, t, prefix) <= Max(0, Reach(s, t, prefix[0]));
    }
  }

  /** Refreshing the priorities changes no activity's cover. */
  lemma RefreshCovers(s: seq<Activity>, avail: seq<int>, policy: Priorities, t: int)
    requires Covered(s, avail, t)
    ensures Covered(Refreshed(s, policy, t), avail, t)
  {
    var sp := Refreshed(s, policy, t);
    var k :| 0 <= k < |s| && |avail| <= Cover(s, t, s[k]);
    assert forall j :: 0 <= j < |s| ==> IsFinished(sp[j], t) == IsFinished(s[j], t);
    assert PredecessorsFinished(sp, sp[k], t) == PredecessorsFinished(s, s[k], t);
    assert Cover(sp, t, sp[k]) == Cover(s, t, s[k]);
  }

  /** Extending the ledger to the furthest tentative end keeps it covered. */
  lemma GrowCovers(s: seq<Activity>, avail: seq<int>, rMax: int, t: int)
    requires Covered(s, avail, t)
    ensures Covered(s, Grow(avail, rMax, FurthestReach(s, t, s)), t)
  {
    var k :| 0 <= k < |s| && |avail| <= Cover(s, t, s[k]);
    FurthestReachBounds(s, t, s);
    var j :| 0 <= j < |s| && FurthestReach(s, t, s) <= Max(0, Reach(s, t, s[j]));
    if |avail| < FurthestReach(s, t, s) {
      assert |Grow(avail, rMax, FurthestReach(s, t, s))| <= Cover(s, t, s[j]);
    }
  }

  /** An activity left unscheduled at `t` with its predecessors finished has a
      window that does not fit what the commit loop leaves: it was not viable, or a
      commit before it took the capacity. */
  lemma LeftOutConflicts(sp: seq<Activity>, avail: seq<int>, availG: seq<int>, rMax: int, t: int,
                         order: seq<nat>, s': seq<Activity>, avail': seq<int>, k: nat)
    requires 0 <= t && Booked(sp, availG, rMax) && Extends(avail, availG, rMax)
    requires multiset(order) == multiset(Viable(sp, avail, rMax, t))
    requires forall j :: j in Viable(sp, avail, rMax, t) ==> t + sp[j].duration < |availG|
    requires (s', avail') == Commit(sp, availG, order, t)
    requires k < |sp| && !IsScheduled(sp[k]) && PredecessorsFinished(sp, sp[k], t) && s'[k] == sp[k]
    requires t + sp[k].duration < |availG|
    ensures Conflict(avail', rMax, t, sp[k].duration, sp[k].resources)
  {
    var a := sp[k];
    var viable := Viable(sp, avail, rMax, t);
    OrderCommittable(sp, avail, availG, rMax, t, viable, order);
    CommitFrame(sp, availG, order, t);
    if k in viable {
      assert k in multiset(order);
      var i :| 0 <= i < |order| && order[i] == k;
      CommitChoices(sp, availG, order, t);
      assert s'[k] != Started(a, t);
      ExceededIsConflict(avail', avail', rMax, t, a.duration, a.resources);
    } else {
      var u :| t <= u < t + a.duration && a.resources > Slot(avail, rMax, u);
      SlotsOfExtension(avail, availG, rMax);
      assert a.resources > Slot(avail', rMax, u);
    }
  }

  /** A window that does not fit a booked ledger overlaps an activity still running
      at the window's start, provided the demand is within `r_max`. */
  lemma ConflictMeansRunning(s: seq<Activity>, avail: seq<int>, rMax: int, t: int, duration: nat, resources: nat)
    requires Booked(s, avail, rMax) && resources <= rMax
    requires Conflict(avail, rMax, t, duration, resources)
    ensures exists j :: 0 <= j < |s| && Running(s[j], t)
  {
    var u :| t <= u < t + duration && resources > Slot(avail, rMax, u);
    assert 0 <= u < |avail| && Usage(s, u) > 0;
    SumPositiveTerm(s, DemandAt(u));
    var j :| 0 <= j < |s| && DemandAt(u)(s[j]) > 0;
    assert Running(s[j], t);
  }

  /** One decision time keeps the ledger covered: the activity that covered it is
      either scheduled by now, covering it with its actual end, or still waiting with
      its predecessors finished, in which case something is running and the next
      decision time is later. */
  lemma DecisionCovers(s1: seq<Activity>, s: seq<Activity>, avail: seq<int>, rMax: int, policy: Priorities,
                       start: int, t: int, s': seq<Activity>, avail': seq<int>, next: int)
    requires ParallelReady(s1, rMax) && Sched(s1, s, avail, rMax, policy, t)
    requires Decision(s, avail, rMax, policy, start, t, s', avail', next)
    requires Sched(s1, s', avail', rMax, policy, next)
    requires Covered(s, avail, t)
    ensures Covered(s', avail', next)
  {
    var sp := Refreshed(s, policy, t);
    var availG := Grow(avail, rMax, FurthestReach(sp, t, sp));
    GrownCovers(s1, s, avail, rMax, policy, t);
    var order: seq<nat> :| CommitOrder(sp, avail, rMax, t, order) && (s', avail') == Commit(sp, availG, order, t);
    CommittedCovers(sp, avail, availG, rMax, t, order, s', avail', start, next);
  }

  /** The refresh-and-grow half of `DecisionCovers`: after `_update_priorities` and
      the ledger growth of `_get_viable_activities`, the ledger is still covered, it
      books what it booked, and it holds the window of every viable activity. */
  lemma GrownCovers(s1: seq<Activity>, s: seq<Activity>, avail: seq<int>, rMax: int, policy: Priorities, t: int)
    requires ParallelReady(s1, rMax) && Sched(s1, s, avail, rMax, policy, t)
    requires Covered(s, avail, t)
    ensures var sp := Refreshed(s, policy, t);
            var availG := Grow(avail, rMax, FurthestReach(sp, t, sp));
            0 <= t && Booked(sp, availG, rMax) && Extends(avail, availG, rMax) &&
            (forall k :: 0 <= k < |sp| ==> sp[k].resources <= rMax) &&
            (forall k :: 0 <= k < |sp| ==> Reach(sp, t, sp[k]) <= |availG|) &&
            (forall j :: j in Viable(sp, avail, rMax, t) ==> t + sp[j].duration < |availG|) &&
            Covered(sp, availG, t)
  {
    var sp := Refreshed(s, policy, t);
    SchedFacts(s1, s, avail, rMax, policy, t);
    assert policy == TimeReserves ==> sp == s;
    PrioritiesKeep(s1, s, sp, avail, rMax, policy, t);
    RefreshCovers(s, avail, policy, t);
    var availG := Grow(avail, rMax, FurthestReach(sp, t, sp));
    GrowCovers(sp, avail, rMax, t);
    ExtendKeepsLedger(sp, avail, availG, rMax);
    FurthestReachBounds(sp, t, sp);
    assert forall j :: j in Viable(sp, avail, rMax, t) ==> Reach(sp, t, sp[j]) == t + sp[j].duration + 1;
  }

  /** The commit half of `DecisionCovers`, over the grown ledger `availG`. */
  lemma CommittedCovers(sp: seq<Activity>, avail: seq<int>, availG: seq<int>, rMax: int, t: int, order: seq<nat>,
                        s': seq<Activity>, avail': seq<int>, start: int, next: int)
    requires 0 <= t && Booked(sp, availG, rMax) && Extends(avail, availG, rMax)
    requires forall k :: 0 <= k < |sp| ==> sp[k].resources <= rMax
    requires multiset(order) == multiset(Viable(sp, avail, rMax, t))
    requires forall k :: 0 <= k < |sp| ==> Reach(sp, t, sp[k]) <= |availG|
    requires forall j :: j in Viable(sp, avail, rMax, t) ==> t + sp[j].duration < |availG|
    requires (s', avail') == Commit(sp, availG, order, t) && Booked(s', avail', rMax)
    requires forall k :: 0 <= k < |s'| ==> IsScheduled(s'[k]) ==> s'[k].actualEnd.Some?
    requires next == NextFinish(s', t, start)
    requires Covered(sp, availG, t)
    ensures Covered(s', avail', next)
  {
    var k :| 0 <= k < |sp| && |availG| <= Cover(sp, t, sp[k]);
    CommitStarts(sp, availG, order, t);
    assert |avail'| == |availG|;
    assert Placed(sp[k], |availG|);
    if s'[k] == sp[k] && |availG| > 0 && !(sp[k].actualEnd.Some? && |availG| <= sp[k].actualEnd.value + 1) {
      WaitingCovers(sp, avail, availG, rMax, t, order, s', avail', start, next, k);
    } else if s'[k] != sp[k] {
      assert k in multiset(order);
      assert Reach(sp, t, sp[k]) == t + sp[k].duration + 1;
    }
    assert |avail'| <= Cover(s', next, s'[k]);
  }

  /** An activity still waiting after the commit loop, its predecessors finished:
      something is running, so the next decision time is later, and the activity
      still waits there with its predecessors finished. */
  lemma WaitingCovers(sp: seq<Activity>, avail: seq<int>, availG: seq<int>, rMax: int, t: int, order: seq<nat>,
                      s': seq<Activity>, avail': seq<int>, start: int, next: int, k: nat)
    requires 0 <= t && Booked(sp, availG, rMax) && Extends(avail, availG, rMax)
    requires multiset(order) == multiset(Viable(sp, avail, rMax, t))
    requires forall j :: j in Viable(sp, avail, rMax, t) ==> t + sp[j].duration < |availG|
    requires (s', avail') == Commit(sp, availG, order, t) && Booked(s', avail', rMax)
    requires forall j :: 0 <= j < |s'| ==> IsScheduled(s'[j]) ==> s'[j].actualEnd.Some?
    requires next == NextFinish(s', t, start)
    requires k < |sp| && s'[k] == sp[k] && !IsScheduled(sp[k]) && PredecessorsFinished(sp, sp[k], t)
    requires t + sp[k].duration < |availG| && sp[k].resources <= rMax
    ensures t < next && PredecessorsFinished(s', s'[k], next)
  {
    LeftOutConflicts(sp, avail, availG, rMax, t, order, s', avail', k);
    ConflictMeansRunning(s', avail', rMax, t, sp[k].duration, sp[k].resources);
    CommitStarts(sp, availG, order, t);
    forall p | p in sp[k].predecessors.value
      ensures 0 <= p < |s'| && IsFinished(s'[p], next)
    {
      assert Placed(sp[p], |availG|);
      assert p in order ==> p in multiset(order);
    }
  }

  /** The loop has ended: `_get_project_actual_end` yields the latest actual end, and
      the state is the one `solve` promises. */
  lemma LoopDone(s0: seq<Activity>, s1: seq<Activity>, s: seq<Activity>, avail: seq<int>, rMax: int,
                 policy: Priorities, t: int, start: int, planned: Option<int>, run: seq<Moment>)
    requires Solved(s0, s1, start, planned) && ParallelReady(s1, rMax)
    requires Sched(s1, s, avail, rMax, policy, t) && Covered(s, avail, t) && !UnfinishedExist(s, t)
    requires Run(run, rMax, policy, start) && run[0] == Moment(Initialised(s1, policy), [], 0)
    requires run[|run| - 1] == Moment(s, avail, t)
    ensures ProjectActualEnd(s).Ok? && ProjectActualEnd(s).value.Some?
    ensures ParallelDone(s0, s, avail, rMax, policy, start, planned, ProjectActualEnd(s).value)
  {
    SchedFacts(s1, s, avail, rMax, policy, t);
    LedgerDoneAtEnd(s1, s, avail, rMax, policy, t);
    assert Bared(s) == s1;
  }

  /** The ledger half of `LoopDone`: with every activity finished, the ledger books
      them all and ends with the slot of the latest actual end. */
  lemma LedgerDoneAtEnd(s1: seq<Activity>, s: seq<Activity>, avail: seq<int>, rMax: int, policy: Priorities, t: int)
    requires ParallelReady(s1, rMax) && |s1| > 0
    requires Sched(s1, s, avail, rMax, policy, t) && Covered(s, avail, t) && !UnfinishedExist(s, t)
    ensures ProjectActualEnd(s) == Ok(Some(MaxActualEnd(s)))
    ensures ParallelLedgerDone(s, avail, rMax, Some(MaxActualEnd(s)))
  {
    SchedFacts(s1, s, avail, rMax, policy, t);
    assert forall k :: 0 <= k < |s| ==> IsFinished(s[k], t);
    assert forall k :: 0 <= k < |s| ==> IsScheduled(s[k]);
    BookedAtMostRMax(s, avail, rMax);
    MaxActualEndIsMax(s);
    CoveredAfterAll(s, avail, t);
  }

  /** Once every activity is scheduled, a covered ledger ends at the latest actual
      end at most. */
  lemma CoveredAfterAll(s: seq<Activity>, avail: seq<int>, t: int)
    requires |s| > 0 && forall k :: 0 <= k < |s| ==> IsScheduled(s[k]) && s[k].actualEnd.Some?
    requires forall k :: 0 <= k < |s| ==> 0 <= s[k].actualEnd.value
    requires Covered(s, avail, t)
    ensures |avail| <= MaxActualEnd(s) + 1
  {
    MaxActualEndIsMax(s);
    var k :| 0 <= k < |s| && |avail| <= Cover(s, t, s[k]);
    assert Reach(s, t, s[k]) == 0;
    assert Cover(s, t, s[k]) == s[k].actualEnd.value + 1;
  }

  /** Right after `_init_activity_priorities` the loop state holds at time 0. */
  lemma InitKeepsSched(s1: seq<Activity>, s: seq<Activity>, rMax: int, policy: Priorities)
    requires ParallelReady(s1, rMax) && |s| == |s1|
    requires policy == TimeReserves ==> forall k :: 0 <= k < |s| ==> s[k] == Reserved(s1[k])
    requires policy == DynamicPriorities ==> s == s1
    ensures Sched(s1, s, [], rMax, policy, 0)
  {
    assert forall k :: 0 <= k < |s| ==> Bare(s[k]) == s1[k];
    assert NoneStarted(s);
    EmptyIsBooked(s, rMax);
  }

  /** What CPM leaves of a constructed project whose activities have no priority yet
      is ready for the parallel loop. */
  lemma SolvedIsParallelReady(s0: seq<Activity>, s1: seq<Activity>, start: int, planned: Option<int>, rMax: int)
    requires Solved(s0, s1, start, planned) && SerialReady(s1, rMax)
    requires forall k :: 0 <= k < |s0| ==> s0[k].priority.None?
    ensures ParallelReady(s1, rMax)
  {
    SolvedKeepsOtherFields(s0, s1, start, planned);
    assert forall k :: 0 <= k < |s1| ==> WithoutTimes(s1[k]) == WithoutTimes(s0[k]);
  }

  /** The rest of `solve` once CPM has succeeded: the priorities, the loop and the
      project's actual end. */
  method ParallelPass(h: HeuristicMethod, policy: Priorities, ghost s0: seq<Activity>, ghost s1: seq<Activity>)
    requires s1 == h.Acts()[..] && 0 <= h.cpm.project.start && h.availableResources == []
    requires Solved(s0, s1, h.cpm.project.start, h.cpm.project.plannedEnd) && ParallelReady(s1, h.RMax())
    modifies h, h.cpm.project, h.Acts()
    ensures h.cpm.project.start == old(h.cpm.project.start)
    ensures ParallelDone(s0, h.Acts()[..], h.availableResources, h.RMax(), policy,
                         h.cpm.project.start, h.cpm.project.plannedEnd, h.cpm.project.actualEnd)
  {
    var acts := h.cpm.project.activities;
    PrioritiesAndLoop(h, policy, s0, s1);
    ghost var s := acts[..];
    ghost var avail := h.availableResources;
    var actualEnd := ProjectActualEnd(acts[..]);
    h.cpm.project.actualEnd := actualEnd.value;
    assert acts[..] == s && h.availableResources == avail;
  }

  /** `_init_activity_priorities` and the loop of `solve`, which leave the state
      `ParallelDone` describes once the project's actual end is read off. */
  method PrioritiesAndLoop(h: HeuristicMethod, policy: Priorities, ghost s0: seq<Activity>, ghost s1: seq<Activity>)
    requires s1 == h.Acts()[..] && 0 <= h.cpm.project.start && h.availableResources == []
    requires Solved(s0, s1, h.cpm.project.start, h.cpm.project.plannedEnd) && ParallelReady(s1, h.RMax())
    modifies h, h.Acts()
    ensures ProjectActualEnd(h.Acts()[..]).Ok? && ProjectActualEnd(h.Acts()[..]).value.Some?
    ensures ParallelDone(s0, h.Acts()[..], h.availableResources, h.RMax(), policy, h.cpm.project.start,
                         h.cpm.project.plannedEnd, ProjectActualEnd(h.Acts()[..]).value)
  {
    var acts := h.cpm.project.activities;
    InitActivityPriorities(h, policy);
    assert acts[..] == Initialised(s1, policy);
    InitKeepsSched(s1, acts[..], h.RMax(), policy);
    assert |h.availableResources| <= Cover(acts[..], 0, acts[..][0]);
    var time;
    ghost var run;
    time, run := DecisionLoop(h, policy, s1);
    LoopDone(s0, s1, acts[..], h.availableResources, h.RMax(), policy, time, h.cpm.project.start,
             h.cpm.project.plannedEnd, run);
  }

  /** `solve` of PHM (policy `TimeReserves`) and of PHMDP (policy `DynamicPriorities`):
      CPM, the priorities, then the decision-time loop, leaving the state
      `ParallelDone` describes.  An empty project makes CPM's `min` raise ValueError. */
  method Solve(h: HeuristicMethod, policy: Priorities) returns (r: Outcome)
    requires Network(h.Acts()[..]) && h.cpm.finalActivities == FinalActivities(h.Acts()[..])
    requires NoneStarted(h.Acts()[..]) && h.availableResources == []
    requires forall k :: 0 <= k < h.Acts().Length ==> h.Acts()[k].priority.None? && h.Acts()[k].resources <= h.RMax()
    requires 0 <= h.cpm.project.start
    modifies h, h.cpm.project, h.Acts()
    ensures r.Fail? <==> h.Acts().Length == 0
    ensures r.Fail? ==> r.error == ValueError
    ensures r.Pass? ==> h.cpm.project.start == old(h.cpm.project.start)
    ensures r.Pass? ==> ParallelDone(old(h.Acts()[..]), h.Acts()[..], h.availableResources, h.RMax(), policy,
                                     h.cpm.project.start, h.cpm.project.plannedEnd, h.cpm.project.actualEnd)
  {
    var acts := h.cpm.project.activities;
    ghost var s0 := acts[..];
    var solved := SolveCpm(h);
    if solved.Fail? {
      return solved;
    }
    SolvedIsParallelReady(s0, acts[..], h.cpm.project.start, h.cpm.project.plannedEnd, h.RMax());
    ParallelPass(h, policy, s0, acts[..]);
    return Pass;
  }
}
