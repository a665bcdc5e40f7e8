/** The serial heuristic method (heuristics/methods/serial_method.py): after CPM,
    the activities are taken one by one in list order, and each starts at the
    earliest time, from the end of its last predecessor on, at which its window
    fits the ledger. */
module Serial {
  import opened Results
  import opened Activities
  import opened Projects
  import opened Cpm
  import opened Sequences
  import opened HeuristicMethods

  /** The latest actual end among the activities at positions `ps`. */
  function LatestPredecessorEnd(s: seq<Activity>, ps: seq<nat>): int
    requires |ps| > 0
    requires forall k :: 0 <= k < |ps| ==> ps[k] < |s| && s[ps[k]].actualEnd.Some?
    decreases |ps|
  {
    var head := s[ps[0]].actualEnd.value;
    if |ps| == 1 then head
    else
      assert forall k :: 1 <= k < |ps| ==> ps[k] == ps[1..][k - 1];
      var rest := LatestPredecessorEnd(s, ps[1..]);
      if head >= rest then head else rest
  }

  lemma {:induction false} LatestPredecessorEndIsMax(s: seq<Activity>, ps: seq<nat>)
    requires |ps| > 0
    requires forall k :: 0 <= k < |ps| ==> ps[k] < |s| && s[ps[k]].actualEnd.Some?
    ensures forall k :: 0 <= k < |ps| ==> s[ps[k]].actualEnd.value <= LatestPredecessorEnd(s, ps)
    ensures exists k :: 0 <= k < |ps| && s[ps[k]].actualEnd.value == LatestPredecessorEnd(s, ps)
    decreases |ps|
  {
    if |ps| == 1 {
      assert s[ps[0]].actualEnd.value == LatestPredecessorEnd(s, ps);
    } else {
      var rest := ps[1..];
      assert forall k :: 1 <= k < |ps| ==> ps[k] == rest[k - 1];
      LatestPredecessorEndIsMax(s, rest);
      var q :| 0 <= q < |rest| && s[rest[q]].actualEnd.value == LatestPredecessorEnd(s, rest);
      if s[ps[0]].actualEnd.value < LatestPredecessorEnd(s, rest) {
        assert s[ps[q + 1]].actualEnd.value == LatestPredecessorEnd(s, ps);
      } else {
        assert s[ps[0]].actualEnd.value == LatestPredecessorEnd(s, ps);
      }
    }
  }

  /** `_get_predecessors_finished_time`: the latest end of the predecessors, or the
      project start when there are none. */
  function PredecessorsFinishedTime(s: seq<Activity>, start: int, i: int): (r: int)
    requires 0 <= i < |s| && s[i].predecessors.Some?
    requires forall p :: p in s[i].predecessors.value ==> p < |s| && s[p].actualEnd.Some?
    ensures |s[i].predecessors.value| == 0 ==> r == start
    ensures forall p :: p in s[i].predecessors.value ==> s[p].actualEnd.value <= r
    ensures |s[i].predecessors.value| > 0 ==>
      exists p :: p in s[i].predecessors.value && s[p].actualEnd.value == r
  {
    var ps := s[i].predecessors.value;
    assert forall k :: 0 <= k < |ps| ==> ps[k] in ps;
    if |ps| == 0 then start
    else
      LatestPredecessorEndIsMax(s, ps);
      assert forall p :: p in ps ==> exists k :: 0 <= k < |ps| && ps[k] == p;
      LatestPredecessorEnd(s, ps)
  }

  /** `_get_time_available_resources_exceeded`: the latest slot of `[lo, hi)` that
      holds less than `resources`, or None when the whole window fits. */
  function LatestConflict(avail: seq<int>, resources: int, lo: int, hi: int): (r: Option<int>)
    requires 0 <= lo && hi <= |avail|
    ensures r.None? <==> forall u :: lo <= u < hi ==> resources <= avail[u]
    ensures r.Some? ==> lo <= r.value < hi && resources > avail[r.value]
    ensures r.Some? ==> forall u :: r.value < u < hi ==> resources <= avail[u]
    decreases hi - lo
  {
    if hi <= lo then None
    else if resources > avail[hi - 1] then Some(hi - 1)
    else LatestConflict(avail, resources, lo, hi - 1)
  }

  /** Every start from `t` up to a conflicting slot `c` of the window at `t` conflicts too. */
  lemma ConflictsUpTo(before: seq<int>, after: seq<int>, rMax: int, t: int, c: int, duration: nat, resources: nat)
    requires Extends(before, after, rMax)
    requires 0 <= t <= c < t + duration && c < |after| && resources > after[c]
    ensures forall t' :: t <= t' <= c ==> Conflict(before, rMax, t', duration, resources)
  {
    SlotsOfExtension(before, after, rMax);
    assert Slot(before, rMax, c) == after[c];
  }

  /** What activity `i` needs when its turn comes: it is not scheduled yet and all
      its predecessors are. */
  predicate TurnOf(s: seq<Activity>, i: int)
  {
    0 <= i < |s| && Unstarted(s[i]) && s[i].predecessors.Some? &&
    forall p :: p in s[i].predecessors.value ==> p < |s| && s[p].actualEnd.Some?
  }

  function Max(a: int, b: int): int
  {
    if a >= b then a else b
  }

  /** One probe of `_schedule_activity` at `time`: the ledger is extended to the
      slot of the tentative end; when no slot of the window holds less than the
      activity needs, the activity is scheduled there, otherwise the latest
      conflicting slot is returned, every start from `time` up to it conflicting. */
  method TryStart(h: HeuristicMethod, i: nat, time: int) returns (exceeded: Option<int>)
    requires i < h.Acts().Length && 0 <= time && h.Acts()[i].resources <= h.RMax()
    modifies h, h.Acts()
    ensures var a := old(h.Acts()[i]);
      var grown := Grow(old(h.availableResources), h.RMax(), time + a.duration + 1);
      if exceeded.None? then
        h.Acts()[..] == old(h.Acts()[..])[i := Started(a, time)] &&
        h.availableResources == Debit(grown, time, a.duration, a.resources) &&
        !Conflict(old(h.availableResources), h.RMax(), time, a.duration, a.resources)
      else
        h.Acts()[..] == old(h.Acts()[..]) && h.availableResources == grown &&
        time <= exceeded.value < |old(h.availableResources)| &&
        a.resources > Slot(old(h.availableResources), h.RMax(), exceeded.value) &&
        forall t :: time <= t <= exceeded.value ==>
          Conflict(old(h.availableResources), h.RMax(), t, a.duration, a.resources)
  {
    var acts := h.cpm.project.activities;
    ghost var avail0 := h.availableResources;
    ghost var rMax := h.cpm.project.rMax;
    ghost var a := acts[i];
    var tentativeEnd := time + acts[i].duration;
    h.InitMissingUntil(tentativeEnd);
    ghost var grown := h.availableResources;
    assert grown == Grow(avail0, rMax, time + a.duration + 1);
    exceeded := LatestConflict(h.availableResources, acts[i].resources, time, tentativeEnd);
    ConflictOfExtension(avail0, grown, rMax, time, a.duration, a.resources);
    if exceeded.None? {
      h.ScheduleActivityFrom(i, time);
    } else {
      ConflictsUpTo(avail0, grown, rMax, time, exceeded.value, a.duration, a.resources);
      SlotsOfExtension(avail0, grown, rMax);
    }
  }

  /** Extending a ledger with slots at `r_max` changes no window's conflicts. */
  lemma ConflictOfGrow(avail: seq<int>, rMax: int, len: int, t: int, duration: nat, resources: nat)
    ensures Conflict(Grow(avail, rMax, len), rMax, t, duration, resources) == Conflict(avail, rMax, t, duration, resources)
  {
    var g := Grow(avail, rMax, len);
    assert forall u :: Slot(g, rMax, u) == Slot(avail, rMax, u);
  }

  lemma SlotOfGrow(avail: seq<int>, rMax: int, len: int, u: int)
    ensures Slot(Grow(avail, rMax, len), rMax, u) == Slot(avail, rMax, u)
  {
  }

  lemma GrowTwice(avail: seq<int>, rMax: int, len1: int, len2: int)
    ensures Grow(Grow(avail, rMax, len1), rMax, len2) == Grow(avail, rMax, Max(len1, len2))
  {
  }

  /** The probe loop of `_schedule_activity`, from `time0` on: on a conflict it
      jumps past the latest conflicting slot.  The start found is the earliest one,
      from `time0` on, at which the window fits the ledger as it stood before; the
      ledger is extended to the slot of the activity's end and debited over its
      window. */
  method ProbeFrom(h: HeuristicMethod, i: nat, time0: int) returns (time: int)
    requires i < h.Acts().Length && 0 <= time0 && h.Acts()[i].resources <= h.RMax()
    requires !IsScheduled(h.Acts()[i])
    modifies h, h.Acts()
    ensures time0 <= time
    ensures h.Acts()[..] == old(h.Acts()[..])[i := Started(old(h.Acts()[i]), time)]
    ensures h.availableResources ==
      Debit(Grow(old(h.availableResources), h.RMax(), time + old(h.Acts()[i]).duration + 1),
            time, old(h.Acts()[i]).duration, old(h.Acts()[i]).resources)
    ensures !Conflict(old(h.availableResources), h.RMax(), time, old(h.Acts()[i]).duration, old(h.Acts()[i]).resources)
    ensures forall t :: time0 <= t < time ==>
      Conflict(old(h.availableResources), h.RMax(), t, old(h.Acts()[i]).duration, old(h.Acts()[i]).resources)
  {
    var acts := h.cpm.project.activities;
    ghost var s0 := acts[..];
    ghost var avail0 := h.availableResources;
    ghost var rMax := h.cpm.project.rMax;
    ghost var bound := Max(|avail0|, time0);
    ghost var duration, resources := acts[i].duration, acts[i].resources;
    ghost var len := |avail0|;
    time := time0;
    while !IsScheduled(acts[i])
      invariant time0 <= time <= bound
      invariant len <= Max(|avail0|, time + duration + 1)
      invariant !IsScheduled(acts[i]) ==> acts[..] == s0 && h.availableResources == Grow(avail0, rMax, len)
      invariant IsScheduled(acts[i]) ==>
        acts[..] == s0[i := Started(s0[i], time)] &&
        h.availableResources == Debit(Grow(avail0, rMax, time + duration + 1), time, duration, resources) &&
        !Conflict(avail0, rMax, time, duration, resources)
      invariant forall t :: time0 <= t < time ==> Conflict(avail0, rMax, t, duration, resources)
      decreases bound - time, if IsScheduled(acts[i]) then 0 else 1
    {
      ghost var before := h.availableResources;
      var exceeded := TryStart(h, i, time);
      forall t | true
        ensures Conflict(before, rMax, t, duration, resources) == Conflict(avail0, rMax, t, duration, resources)
      {
        ConflictOfGrow(avail0, rMax, len, t, duration, resources);
      }
      GrowTwice(avail0, rMax, len, time + duration + 1);
      len := Max(len, time + duration + 1);
      if exceeded.Some? {
        SlotOfGrow(avail0, rMax, len, exceeded.value);
        time := exceeded.value + 1;
      }
    }
  }

  /** `_schedule_activity`: the activity starts at the earliest time, from the end
      of its last predecessor (or the project start) on, at which its window fits
      the ledger as it stood when its turn came; the ledger keeps booking exactly
      the scheduled activities. */
  method ScheduleActivity(h: HeuristicMethod, i: nat)
    requires TurnOf(h.Acts()[..], i)
    requires h.Acts()[i].resources <= h.RMax() && 0 <= h.cpm.project.start
    requires Booked(h.Acts()[..], h.availableResources, h.RMax())
    modifies h, h.Acts()
    ensures h.Acts()[i].actualStart.Some?
    ensures h.Acts()[..] == old(h.Acts()[..])[i := Started(old(h.Acts()[i]), h.Acts()[i].actualStart.value)]
    ensures h.Acts()[i].actualStart.value >= PredecessorsFinishedTime(old(h.Acts()[..]), h.cpm.project.start, i)
    ensures !Conflict(old(h.availableResources), h.RMax(), h.Acts()[i].actualStart.value,
                      h.Acts()[i].duration, h.Acts()[i].resources)
    ensures forall t :: PredecessorsFinishedTime(old(h.Acts()[..]), h.cpm.project.start, i) <= t <
                        h.Acts()[i].actualStart.value ==>
      Conflict(old(h.availableResources), h.RMax(), t, h.Acts()[i].duration, h.Acts()[i].resources)
    ensures h.availableResources ==
      Debit(Grow(old(h.availableResources), h.RMax(), h.Acts()[i].actualEnd.value + 1),
            h.Acts()[i].actualStart.value, h.Acts()[i].duration, h.Acts()[i].resources)
    ensures Booked(h.Acts()[..], h.availableResources, h.RMax())
  {
    var acts := h.cpm.project.activities;
    ghost var s0 := acts[..];
    ghost var avail0 := h.availableResources;
    ghost var rMax := h.cpm.project.rMax;
    var time := PredecessorsFinishedTime(acts[..], h.cpm.project.start, i);
    if |acts[i].predecessors.value| > 0 {
      var p :| p in acts[i].predecessors.value && acts[p].actualEnd.value == time;
      assert Placed(acts[p], |avail0|);
    }
    time := ProbeFrom(h, i, time);
    ghost var grown := Grow(avail0, rMax, time + s0[i].duration + 1);
    ExtendKeepsBooked(s0, avail0, grown, rMax);
    ScheduleKeepsBooked(s0, grown, rMax, i, time);
  }

  /** What the list CPM leaves needs for the serial pass: nothing scheduled yet,
      predecessors listed first, and no activity needing more than `r_max`. */
  ghost predicate SerialReady(s1: seq<Activity>, rMax: int)
  {
    NoneStarted(s1) && PredecessorsFirst(s1) &&
    forall k :: 0 <= k < |s1| ==> s1[k].resources <= rMax
  }

  /** The state of the serial pass after the first `i` activities: those are
      scheduled after their predecessors, each at its earliest fitting start, the
      rest are as CPM left them, the ledger books the scheduled ones, has no
      negative slot and reaches the slot of their latest end. */
  ghost predicate ScheduledUpTo(s1: seq<Activity>, s: seq<Activity>, avail: seq<int>, rMax: int, start: int, i: int)
  {
    0 <= i <= |s| == |s1| && PassPrefix(s1, s, i) && PassLedger(s, avail, rMax, i) &&
    EarliestStarts(s, rMax, start, i)
  }

  /** Running `resources` over `[t, t + duration)` fits in every slot what the
      activities of `done` leave of `r_max`. */
  ghost predicate FitsAfter(done: seq<Activity>, rMax: int, t: int, duration: nat, resources: nat)
  {
    forall u :: t <= u < t + duration ==> resources <= rMax - Usage(done, u)
  }

  /** Activity `k` starts at the earliest time, from the end of its last
      predecessor (or the project start) on, at which its window fits beside the
      activities listed before it. */
  ghost predicate EarliestFit(s: seq<Activity>, rMax: int, start: int, k: int)
    requires 0 <= k < |s| && s[k].predecessors.Some? && AfterPredecessors(s, k)
  {
    var lo := PredecessorsFinishedTime(s, start, k);
    var st := s[k].actualStart.value;
    lo <= st && FitsAfter(s[..k], rMax, st, s[k].duration, s[k].resources) &&
    forall t :: lo <= t < st ==> !FitsAfter(s[..k], rMax, t, s[k].duration, s[k].resources)
  }

  /** Each of the first `i` activities starts at its earliest fitting time. */
  ghost predicate EarliestStarts(s: seq<Activity>, rMax: int, start: int, i: int)
    requires 0 <= i <= |s|
    requires forall k :: 0 <= k < i ==> s[k].predecessors.Some? && AfterPredecessors(s, k)
  {
    forall k :: 0 <= k < i ==> EarliestFit(s, rMax, start, k)
  }

  /** While only the activities before `i` are scheduled, a slot booked by the
      ledger holds what they leave of `r_max`, so a window conflicts with the ledger
      exactly when it does not fit beside them. */
  lemma ConflictIsNoFit(s: seq<Activity>, avail: seq<int>, rMax: int, i: int,
                        t: int, duration: nat, resources: nat)
    requires Booked(s, avail, rMax) && 0 <= i <= |s| && 0 <= t
    requires forall k :: i <= k < |s| ==> Unstarted(s[k])
    ensures Conflict(avail, rMax, t, duration, resources) <==> !FitsAfter(s[..i], rMax, t, duration, resources)
  {
    forall u | 0 <= u
      ensures Slot(avail, rMax, u) == rMax - Usage(s[..i], u)
    {
      UsageOfPrefix(s, i, u);
      if |avail| <= u {
        UsageBeyond(s, |avail|, u);
      }
    }
  }

  /** Unscheduled activities take nothing, so the load of a slot is the load of the
      activities before the first unscheduled suffix. */
  lemma UsageOfPrefix(s: seq<Activity>, i: int, u: int)
    requires 0 <= i <= |s| && forall k :: i <= k < |s| ==> Unstarted(s[k])
    ensures Usage(s, u) == Usage(s[..i], u)
  {
    assert s == s[..i] + s[i..];
    SumAppend(s[..i], s[i..], DemandAt(u));
    SumZero(s[i..], DemandAt(u));
  }

  /** The time predecessors finish depends only on the predecessors' actual ends. */
  lemma FinishedTimeFrame(s: seq<Activity>, t: seq<Activity>, start: int, k: int)
    requires 0 <= k < |s| == |t| && s[k].predecessors.Some? && t[k].predecessors == s[k].predecessors
    requires forall p :: p in s[k].predecessors.value ==>
      p < |s| && s[p].actualEnd.Some? && t[p].actualEnd == s[p].actualEnd
    ensures PredecessorsFinishedTime(t, start, k) == PredecessorsFinishedTime(s, start, k)
  {
    var ps := s[k].predecessors.value;
    if |ps| > 0 {
      var p :| p in ps && s[p].actualEnd.value == PredecessorsFinishedTime(s, start, k);
      var q :| q in ps && t[q].actualEnd.value == PredecessorsFinishedTime(t, start, k);
    }
  }

  /** The first `i` activities are scheduled after their predecessors; the rest are
      as CPM left them; none has changed but for its actual times. */
  ghost predicate PassPrefix(s1: seq<Activity>, s: seq<Activity>, i: int)
    requires 0 <= i <= |s| == |s1|
  {
    (forall k :: 0 <= k < |s| ==> ClearActual(s[k]) == s1[k]) &&
    (forall k :: i <= k < |s| ==> s[k] == s1[k]) &&
    (forall k :: 0 <= k < i ==> s[k].actualEnd.Some? && s[k].predecessors.Some? && AfterPredecessors(s, k))
  }

  /** The ledger books the first `i` activities, has no negative slot and reaches
      the slot of their latest end. */
  ghost predicate PassLedger(s: seq<Activity>, avail: seq<int>, rMax: int, i: int)
    requires 0 <= i <= |s|
    requires forall k :: 0 <= k < i ==> s[k].actualEnd.Some?
  {
    Booked(s, avail, rMax) &&
    (forall u :: 0 <= u < |avail| ==> 0 <= avail[u]) &&
    (i == 0 ==> avail == []) &&
    (i > 0 ==> |avail| == MaxActualEnd(s[..i]) + 1)
  }

  /** The body of `solve`'s loop: activity `i` is scheduled in its turn. */
  method ScheduleNext(h: HeuristicMethod, i: nat, ghost s1: seq<Activity>)
    requires SerialReady(s1, h.RMax()) && i < h.Acts().Length && 0 <= h.cpm.project.start
    requires ScheduledUpTo(s1, h.Acts()[..], h.availableResources, h.RMax(), h.cpm.project.start, i)
    modifies h, h.Acts()
    ensures ScheduledUpTo(s1, h.Acts()[..], h.availableResources, h.RMax(), h.cpm.project.start, i + 1)
  {
    ghost var s := h.Acts()[..];
    ghost var avail := h.availableResources;
    ghost var start := h.cpm.project.start;
    TurnOfNext(s1, s, avail, h.RMax(), start, i);
    ScheduleActivity(h, i);
    ghost var st := h.Acts()[i].actualStart.value;
    StepKeepsPrefix(s1, s, h.Acts()[..], avail, h.RMax(), i, start, st);
    StepKeepsLedger(s, h.Acts()[..], avail, h.availableResources, h.RMax(), i, st);
    StepKeepsEarliest(s1, s, h.Acts()[..], avail, h.RMax(), i, start, st);
  }

  /** In the pass, the next activity's turn has come. */
  lemma TurnOfNext(s1: seq<Activity>, s: seq<Activity>, avail: seq<int>, rMax: int, start: int, i: int)
    requires SerialReady(s1, rMax) && ScheduledUpTo(s1, s, avail, rMax, start, i) && i < |s|
    ensures TurnOf(s, i) && s[i] == s1[i] && s[i].resources <= rMax
    ensures Booked(s, avail, rMax)
    ensures forall p :: p in s[i].predecessors.value ==> p < i
    ensures forall k :: i <= k < |s| ==> Unstarted(s[k])
  {
  }

  /** Scheduling the next activity at the earliest start at which its window fits
      the ledger keeps every activity so far at its earliest fitting start. */
  lemma StepKeepsEarliest(s1: seq<Activity>, s: seq<Activity>, t: seq<Activity>, avail: seq<int>, rMax: int,
                          i: int, start: int, st: int)
    requires SerialReady(s1, rMax) && ScheduledUpTo(s1, s, avail, rMax, start, i) && i < |s| && TurnOf(s, i)
    requires t == s[i := Started(s[i], st)] && 0 <= i + 1 <= |t| == |s1| && PassPrefix(s1, t, i + 1)
    requires 0 <= start && PredecessorsFinishedTime(s, start, i) <= st
    requires !Conflict(avail, rMax, st, s[i].duration, s[i].resources)
    requires forall x :: PredecessorsFinishedTime(s, start, i) <= x < st ==>
      Conflict(avail, rMax, x, s[i].duration, s[i].resources)
    ensures EarliestStarts(t, rMax, start, i + 1)
  {
    TurnOfNext(s1, s, avail, rMax, start, i);
    var lo := PredecessorsFinishedTime(s, start, i);
    if |s[i].predecessors.value| > 0 {
      var p :| p in s[i].predecessors.value && s[p].actualEnd.value == lo;
      assert Placed(s[p], |avail|);
    }
    ConflictIsNoFit(s, avail, rMax, i, st, s[i].duration, s[i].resources);
    forall x | lo <= x < st
      ensures !FitsAfter(s[..i], rMax, x, s[i].duration, s[i].resources)
    {
      ConflictIsNoFit(s, avail, rMax, i, x, s[i].duration, s[i].resources);
    }
    assert t[..i] == s[..i];
    FinishedTimeFrame(s, t, start, i);
    forall k | 0 <= k < i
      ensures EarliestFit(t, rMax, start, k)
    {
      assert EarliestFit(s, rMax, start, k);
      assert t[k] == s[k] && t[..k] == s[..k];
      FinishedTimeFrame(s, t, start, k);
    }
  }

  /** Scheduling the next activity in its turn extends the scheduled prefix. */
  lemma StepKeepsPrefix(s1: seq<Activity>, s: seq<Activity>, t: seq<Activity>, avail: seq<int>, rMax: int,
                        i: int, projStart: int, st: int)
    requires SerialReady(s1, rMax) && ScheduledUpTo(s1, s, avail, rMax, projStart, i) && i < |s| && TurnOf(s, i)
    requires t == s[i := Started(s[i], st)]
    requires st >= PredecessorsFinishedTime(s, projStart, i)
    ensures 0 <= i + 1 <= |t| == |s1| && PassPrefix(s1, t, i + 1)
  {
    TurnOfNext(s1, s, avail, rMax, projStart, i);
    ScheduledInTurn(s, t, i, projStart);
  }

  /** Debiting the next activity's window keeps the ledger of the pass. */
  lemma StepKeepsLedger(s: seq<Activity>, t: seq<Activity>, avail: seq<int>, avail2: seq<int>,
                        rMax: int, i: int, st: int)
    requires 0 <= i < |s| && t == s[i := Started(s[i], st)]
    requires forall k :: 0 <= k < i ==> s[k].actualEnd.Some?
    requires forall u :: 0 <= u < |avail| ==> 0 <= avail[u]
    requires i == 0 ==> avail == []
    requires i > 0 ==> |avail| == MaxActualEnd(s[..i]) + 1
    requires s[i].resources <= rMax && !Conflict(avail, rMax, st, s[i].duration, s[i].resources)
    requires avail2 == Debit(Grow(avail, rMax, st + s[i].duration + 1), st, s[i].duration, s[i].resources)
    requires Booked(t, avail2, rMax)
    ensures forall k :: 0 <= k < i + 1 ==> t[k].actualEnd.Some?
    ensures PassLedger(t, avail2, rMax, i + 1)
  {
    DebitKeepsFeasible(avail, rMax, st, s[i].duration, s[i].resources);
    assert Placed(t[i], |avail2|);
    LedgerReachesEnd(s, t, avail, rMax, i, st);
  }

  /** After the next activity, the ledger reaches the slot of the latest end so far. */
  lemma LedgerReachesEnd(s: seq<Activity>, t: seq<Activity>, avail: seq<int>, rMax: int, i: int, st: int)
    requires 0 <= i < |s| && 0 <= st && t == s[i := Started(s[i], st)]
    requires forall k :: 0 <= k < i ==> s[k].actualEnd.Some?
    requires i == 0 ==> avail == []
    requires i > 0 ==> |avail| == MaxActualEnd(s[..i]) + 1
    ensures forall k :: 0 <= k < i + 1 ==> t[k].actualEnd.Some?
    ensures |Grow(avail, rMax, st + s[i].duration + 1)| == MaxActualEnd(t[..i + 1]) + 1
  {
    var end := st + s[i].duration;
    assert t[i].actualEnd == Some(end);
    var p := t[..i + 1];
    if i > 0 {
      assert p[..i] == s[..i];
      assert MaxActualEnd(p) == if MaxActualEnd(s[..i]) >= end then MaxActualEnd(s[..i]) else end;
    } else {
      assert MaxActualEnd(p) == end;
    }
  }

  /** What the serial pass promises of the list CPM was given (`s0`), the list it
      leaves (`s`), the ledger and the project's actual end: the activities keep
      what CPM gave them and only gain their actual times; every activity starts
      after all its predecessors end, at the earliest time from then on at which its
      window fits beside the activities listed before it; no slot of the ledger is
      overdrawn; the ledger
      books exactly the scheduled activities and reaches the slot of the project's
      actual end, which is the latest actual end. */
  ghost predicate SerialDone(s0: seq<Activity>, s: seq<Activity>, avail: seq<int>, rMax: int,
                             start: int, planned: Option<int>, actualEnd: Option<int>)
  {
    Solved(s0, Unscheduled(s), start, planned) && Precedence(s) && EarliestStarts(s, rMax, start, |s|) &&
    LedgerDone(s, avail, rMax, actualEnd)
  }

  /** Every activity starts after all its predecessors end. */
  ghost predicate Precedence(s: seq<Activity>)
  {
    forall k :: 0 <= k < |s| ==> s[k].predecessors.Some? && AfterPredecessors(s, k)
  }

  /** Every activity is scheduled; the ledger books them all, no slot is overdrawn
      or above `r_max`, and it reaches the slot of the actual end, the latest end. */
  ghost predicate LedgerDone(s: seq<Activity>, avail: seq<int>, rMax: int, actualEnd: Option<int>)
  {
    Booked(s, avail, rMax) &&
    (forall u :: 0 <= u < |avail| ==> 0 <= avail[u] <= rMax) &&
    (forall k :: 0 <= k < |s| ==> s[k].actualEnd.Some?) && |s| > 0 &&
    actualEnd == Some(MaxActualEnd(s)) && |avail| == MaxActualEnd(s) + 1
  }

  /** `solve`: CPM, then every activity in list order at its earliest fitting start,
      leaving the state `SerialDone` describes.  An empty project makes CPM's `min`
      raise ValueError. */
  method Solve(h: HeuristicMethod) returns (r: Outcome)
    requires Network(h.Acts()[..]) && h.cpm.finalActivities == FinalActivities(h.Acts()[..])
    requires NoneStarted(h.Acts()[..]) && h.availableResources == []
    requires forall k :: 0 <= k < h.Acts().Length ==> h.Acts()[k].resources <= h.RMax()
    requires 0 <= h.cpm.project.start
    modifies h, h.cpm.project, h.Acts()
    ensures r.Fail? <==> h.Acts().Length == 0
    ensures r.Fail? ==> r.error == ValueError
    ensures r.Pass? ==> h.cpm.project.start == old(h.cpm.project.start)
    ensures r.Pass? ==> SerialDone(old(h.Acts()[..]), h.Acts()[..], h.availableResources, h.RMax(),
                                   h.cpm.project.start, h.cpm.project.plannedEnd, h.cpm.project.actualEnd)
  {
    var acts := h.cpm.project.activities;
    ghost var s0 := acts[..];
    var solved := SolveCpm(h);
    if solved.Fail? {
      return solved;
    }
    SchedulePass(h, s0, acts[..]);
    return Pass;
  }

  /** The rest of `solve` once CPM has succeeded: the loop over the activities and
      the project's actual end. */
  method SchedulePass(h: HeuristicMethod, ghost s0: seq<Activity>, ghost s1: seq<Activity>)
    requires s1 == h.Acts()[..] && 0 <= h.cpm.project.start
    requires Solved(s0, s1, h.cpm.project.start, h.cpm.project.plannedEnd) && SerialReady(s1, h.RMax())
    requires ScheduledUpTo(s1, s1, h.availableResources, h.RMax(), h.cpm.project.start, 0)
    modifies h, h.cpm.project, h.Acts()
    ensures h.cpm.project.start == old(h.cpm.project.start)
    ensures SerialDone(s0, h.Acts()[..], h.availableResources, h.RMax(),
                       h.cpm.project.start, h.cpm.project.plannedEnd, h.cpm.project.actualEnd)
  {
    var acts := h.cpm.project.activities;
    ScheduleAll(h, s1);
    ghost var s := acts[..];
    ghost var avail := h.availableResources;
    ScheduledAll(s0, s1, s, avail, h.RMax(), h.cpm.project.start, h.cpm.project.plannedEnd);
    var actualEnd := ProjectActualEnd(acts[..]);
    h.cpm.project.actualEnd := actualEnd.value;
    assert acts[..] == s && h.availableResources == avail;
  }

  /** The loop of `solve`: every activity, in list order, scheduled in its turn. */
  method ScheduleAll(h: HeuristicMethod, ghost s1: seq<Activity>)
    requires SerialReady(s1, h.RMax()) && 0 <= h.cpm.project.start
    requires ScheduledUpTo(s1, h.Acts()[..], h.availableResources, h.RMax(), h.cpm.project.start, 0)
    modifies h, h.Acts()
    ensures ScheduledUpTo(s1, h.Acts()[..], h.availableResources, h.RMax(), h.cpm.project.start, h.Acts().Length)
  {
    var acts := h.cpm.project.activities;
    var i := 0;
    while i < acts.Length
      invariant ScheduledUpTo(s1, acts[..], h.availableResources, h.RMax(), h.cpm.project.start, i)
    {
      ScheduleNext(h, i, s1);
      i := i + 1;
    }
  }

  /** The first step of `solve`: CPM on the project, which leaves the list ready
      for the serial pass. */
  method SolveCpm(h: HeuristicMethod) returns (r: Outcome)
    requires Network(h.Acts()[..]) && h.cpm.finalActivities == FinalActivities(h.Acts()[..])
    requires NoneStarted(h.Acts()[..]) && h.availableResources == []
    requires forall k :: 0 <= k < h.Acts().Length ==> h.Acts()[k].resources <= h.RMax()
    modifies h.cpm.project, h.Acts()
    ensures r.Fail? <==> h.Acts().Length == 0
    ensures r.Fail? ==> r.error == ValueError
    ensures r.Pass? ==> (h.cpm.project.start == old(h.cpm.project.start) &&
      Solved(old(h.Acts()[..]), h.Acts()[..], h.cpm.project.start, h.cpm.project.plannedEnd) &&
      SerialReady(h.Acts()[..], h.RMax()) &&
      ScheduledUpTo(h.Acts()[..], h.Acts()[..], h.availableResources, h.RMax(), h.cpm.project.start, 0))
  {
    ghost var s0 := h.Acts()[..];
    NetworkIsDag(s0);
    NetworkPredecessorsFirst(s0);
    var warnings;
    r, warnings := h.cpm.Solve();
    if r.Pass? {
      SolvedIsReady(s0, h.Acts()[..], h.cpm.project.start, h.cpm.project.plannedEnd, h.RMax());
    }
  }

  /** What CPM leaves of a constructed, unscheduled project is ready for the pass. */
  lemma SolvedIsReady(s0: seq<Activity>, s1: seq<Activity>, start: int, planned: Option<int>, rMax: int)
    requires Solved(s0, s1, start, planned) && PredecessorsFirst(s0) && NoneStarted(s0)
    requires forall k :: 0 <= k < |s0| ==> s0[k].resources <= rMax
    ensures SerialReady(s1, rMax) && ScheduledUpTo(s1, s1, [], rMax, start, 0)
  {
    SolvedKeepsOtherFields(s0, s1, start, planned);
    assert forall k :: 0 <= k < |s1| ==> WithoutTimes(s1[k]) == WithoutTimes(s0[k]);
    EmptyIsBooked(s1, rMax);
  }

  /** The finished pass: `_get_project_actual_end` yields the latest actual end,
      and the state is the one `solve` promises. */
  lemma ScheduledAll(s0: seq<Activity>, s1: seq<Activity>, s: seq<Activity>, avail: seq<int>, rMax: int,
                     start: int, planned: Option<int>)
    requires Solved(s0, s1, start, planned) && ScheduledUpTo(s1, s, avail, rMax, start, |s|)
    ensures ProjectActualEnd(s).Ok? && ProjectActualEnd(s).value.Some?
    ensures SerialDone(s0, s, avail, rMax, start, planned, ProjectActualEnd(s).value)
  {
    assert s[..|s|] == s;
    assert Unscheduled(s) == s1;
    BookedAtMostRMax(s, avail, rMax);
  }

  /** Scheduling activity `i` in its turn keeps every earlier activity after its
      predecessors and puts `i` after its own. */
  lemma ScheduledInTurn(s: seq<Activity>, t: seq<Activity>, i: int, start: int)
    requires TurnOf(s, i) && |t| == |s|
    requires forall k :: 0 <= k < |s| && k != i ==> t[k] == s[k]
    requires t[i].predecessors == s[i].predecessors && t[i].actualStart.Some?
    requires t[i].actualStart.value >= PredecessorsFinishedTime(s, start, i)
    requires forall k :: 0 <= k < i ==> s[k].predecessors.Some? && AfterPredecessors(s, k)
    requires forall k :: 0 <= k <= i ==> forall p :: p in s[k].predecessors.value ==> p < k
    ensures forall k :: 0 <= k <= i ==> t[k].predecessors.Some? && AfterPredecessors(t, k)
  {
  }
}
