/** The Critical Path Method solver of heuristics/core/cpm.py: a forward sweep that
    stores earliest starts and ends, a backward sweep that stores latest ends and
    starts, the time reserves, and the project's start and end.  Each sweep is
    proved to store exactly the values of the recursive definition in CpmSpec. */
module Cpm {
  import opened Results
  import opened Sequences
  import opened Activities
  import opened Initializer
  import opened Projects
  import opened CpmSpec

  /** `_is_first`: no predecessors. */
  predicate IsFirst(a: Activity)
  {
    a.predecessors.Some? && |a.predecessors.value| == 0
  }

  /** `_is_final`: no successors. */
  predicate IsFinal(a: Activity)
  {
    a.successors.Some? && |a.successors.value| == 0
  }

  /** `_get_final_activities`: the positions of the final activities, in list order. */
  function FinalActivities(s: seq<Activity>): seq<nat>
  {
    IndicesWhere(s, IsFinal)
  }

  /** Every activity has its predecessor and successor lists. */
  predicate Linked(s: seq<Activity>)
  {
    forall k :: 0 <= k < |s| ==> s[k].predecessors.Some? && s[k].successors.Some?
  }

  /** What CPM needs of a project's list: every activity linked, and a network in
      which position order is a topological order and the two relations mirror
      each other. */
  ghost predicate Ready(s: seq<Activity>)
  {
    Linked(s) && Dag(Skeleton(s)) && Mirrored(Skeleton(s))
  }

  /** A constructed project whose ids all point forward is ready for CPM. */
  lemma NetworkIsDag(s: seq<Activity>)
    requires Network(s)
    ensures Ready(s)
  {
    var g := Skeleton(s);
    forall i | 0 <= i < |s|
      ensures g[i].preds == s[i].predecessors.value && g[i].succs == s[i].successors.value
      ensures forall p :: p in g[i].preds ==> p < i
      ensures forall j :: j in g[i].succs ==> i < j < |g|
    {
      PredecessorBeforeSuccessor(s, i);
    }
    forall i, j | 0 <= i < |g| && 0 <= j < |g|
      ensures j in g[i].succs <==> i in g[j].preds
    {
      SuccessorIffPredecessor(s, i, j);
    }
  }

  /** The final activities of a wired list are the sinks of its network. */
  lemma FinalsAreSinks(s: seq<Activity>)
    requires Linked(s)
    ensures FinalActivities(s) == Finals(Skeleton(s))
  {
    var g := Skeleton(s);
    forall k | 0 <= k < |s|
      ensures IsFinal(s[k]) == IsSink(g[k])
    {
      assert g[k] == NodeOf(s[k]);
    }
    IndicesWhereCongruent(s, IsFinal, g, IsSink);
  }

  /** `max(pred.earliest_end for pred in ps)` over stored values. */
  function LatestStoredEnd(s: seq<Activity>, ps: seq<nat>): (r: int)
    requires |ps| > 0
    requires forall k :: 0 <= k < |ps| ==> ps[k] < |s| && s[ps[k]].earliestEnd.Some?
    ensures forall k :: 0 <= k < |ps| ==> r >= s[ps[k]].earliestEnd.value
    ensures exists k :: 0 <= k < |ps| && r == s[ps[k]].earliestEnd.value
  {
    var head := s[ps[0]].earliestEnd.value;
    if |ps| == 1 then head
    else
      var rest := LatestStoredEnd(s, ps[1..]);
      assert forall k :: 1 <= k < |ps| ==> ps[k] == ps[1..][k - 1];
      if head >= rest then head else rest
  }

  /** `min(succ.latest_start for succ in js)` over stored values. */
  function EarliestStoredStart(s: seq<Activity>, js: seq<nat>): (r: int)
    requires |js| > 0
    requires forall k :: 0 <= k < |js| ==> js[k] < |s| && s[js[k]].latestStart.Some?
    ensures forall k :: 0 <= k < |js| ==> r <= s[js[k]].latestStart.value
    ensures exists k :: 0 <= k < |js| && r == s[js[k]].latestStart.value
  {
    var head := s[js[0]].latestStart.value;
    if |js| == 1 then head
    else
      var rest := EarliestStoredStart(s, js[1..]);
      assert forall k :: 1 <= k < |js| ==> js[k] == js[1..][k - 1];
      if head <= rest then head else rest
  }

  /** `_get_earliest_start`: the project start for a first activity, otherwise the
      latest stored earliest end among the predecessors (read directly when there is
      only one). */
  function GetEarliestStart(s: seq<Activity>, start: int, i: int): (r: int)
    requires 0 <= i < |s| && s[i].predecessors.Some?
    requires forall p :: p in s[i].predecessors.value ==> p < |s| && s[p].earliestEnd.Some?
    ensures IsFirst(s[i]) ==> r == start
    ensures forall p :: p in s[i].predecessors.value ==> r >= s[p].earliestEnd.value
    ensures !IsFirst(s[i]) ==> exists p :: p in s[i].predecessors.value && r == s[p].earliestEnd.value
  {
    var ps := s[i].predecessors.value;
    assert forall k :: 0 <= k < |ps| ==> ps[k] in ps;
    if |ps| == 0 then start
    else if |ps| == 1 then s[ps[0]].earliestEnd.value
    else LatestStoredEnd(s, ps)
  }

  /** What `_get_latest_end` returns, and whether it printed the warning that the
      planned end is too early. */
  datatype EndChoice = EndChoice(value: int, warning: bool)

  /** `_get_latest_end`.  For a final activity: the latest stored earliest end of the
      final activities, replaced by the planned end when one is given and is not
      smaller; a smaller planned end is ignored with a warning.  Otherwise: the
      smallest stored latest start among the successors. */
  function GetLatestEnd(s: seq<Activity>, finals: seq<nat>, planned: Option<int>, i: int): (r: EndChoice)
    requires 0 <= i < |s| && s[i].successors.Some?
    requires forall j :: j in s[i].successors.value ==> j < |s| && s[j].latestStart.Some?
    requires |finals| > 0
    requires forall k :: 0 <= k < |finals| ==> finals[k] < |s| && s[finals[k]].earliestEnd.Some?
    ensures IsFinal(s[i]) ==> r.value >= LatestStoredEnd(s, finals)
    ensures IsFinal(s[i]) ==> (r.warning <==> planned.Some? && planned.value < LatestStoredEnd(s, finals))
    ensures IsFinal(s[i]) && !r.warning ==> r.value == (if planned.Some? then planned.value else LatestStoredEnd(s, finals))
    ensures IsFinal(s[i]) && r.warning ==> r.value == LatestStoredEnd(s, finals)
    ensures !IsFinal(s[i]) ==> !r.warning
    ensures forall j :: j in s[i].successors.value ==> r.value <= s[j].latestStart.value
    ensures !IsFinal(s[i]) ==> exists j :: j in s[i].successors.value && r.value == s[j].latestStart.value
  {
    var js := s[i].successors.value;
    assert forall k :: 0 <= k < |js| ==> js[k] in js;
    if |js| == 0 then
      var earliest := LatestStoredEnd(s, finals);
      if planned.Some? then
        if planned.value < earliest then EndChoice(earliest, true)
        else EndChoice(planned.value, false)
      else EndChoice(earliest, false)
    else if |js| == 1 then EndChoice(s[js[0]].latestStart.value, false)
    else EndChoice(EarliestStoredStart(s, js), false)
  }

  /** `min(act.earliest_start for act in activities)`. */
  function FirstStart(s: seq<Activity>): (r: int)
    requires |s| > 0 && forall k :: 0 <= k < |s| ==> s[k].earliestStart.Some?
    ensures forall k :: 0 <= k < |s| ==> r <= s[k].earliestStart.value
    ensures exists k :: 0 <= k < |s| && r == s[k].earliestStart.value
  {
    var head := s[0].earliestStart.value;
    if |s| == 1 then head
    else
      var rest := FirstStart(s[1..]);
      assert forall k :: 1 <= k < |s| ==> s[k] == s[1..][k - 1];
      if head <= rest then head else rest
  }

  /** `max(act.latest_end for act in activities)`. */
  function LastEnd(s: seq<Activity>): (r: int)
    requires |s| > 0 && forall k :: 0 <= k < |s| ==> s[k].latestEnd.Some?
    ensures forall k :: 0 <= k < |s| ==> r >= s[k].latestEnd.value
    ensures exists k :: 0 <= k < |s| && r == s[k].latestEnd.value
  {
    var head := s[0].latestEnd.value;
    if |s| == 1 then head
    else
      var rest := LastEnd(s[1..]);
      assert forall k :: 1 <= k < |s| ==> s[k] == s[1..][k - 1];
      if head >= rest then head else rest
  }

  /** All four times of the sweeps are stored. */
  predicate TimesSet(a: Activity)
  {
    a.earliestStart.Some? && a.earliestEnd.Some? && a.latestStart.Some? && a.latestEnd.Some?
  }

  /** The consistency check of `_calculate_time_reserves`: the slack measured at the
      start equals the slack measured at the end. */
  predicate ReservesAgree(a: Activity)
    requires TimesSet(a)
  {
    a.latestStart.value - a.earliestStart.value == a.latestEnd.value - a.earliestEnd.value
  }

  function WithReserve(a: Activity): Activity
    requires TimesSet(a)
  {
    a.(timeReserve := Some(a.latestStart.value - a.earliestStart.value))
  }

  /** `_calculate_time_reserves` stopped at the first activity `f` of `s0` whose slacks
      differ: those before `f` have their reserves in `s`, the rest are untouched. */
  predicate FailedAt(s0: seq<Activity>, s: seq<Activity>)
  {
    |s| == |s0| && (forall k :: 0 <= k < |s0| ==> TimesSet(s0[k])) &&
    exists f :: 0 <= f < |s0| && !ReservesAgree(s0[f]) &&
      (forall k :: 0 <= k < f ==> ReservesAgree(s0[k]) && s[k] == WithReserve(s0[k])) &&
      (forall k :: f <= k < |s0| ==> s[k] == s0[k])
  }

  /** Activity `a`, at position `k`, after the forward sweep. */
  ghost function WithEarliest(g: seq<Node>, start: int, a: Activity, k: int): Activity
    requires Dag(g) && 0 <= k < |g|
  {
    a.(earliestStart := Some(EarliestStart(g, start, k)), earliestEnd := Some(EarliestEnd(g, start, k)))
  }

  /** Activity `a`, at position `k`, after the backward sweep from `end`. */
  ghost function WithLatest(g: seq<Node>, end: int, a: Activity, k: int): Activity
    requires Dag(g) && 0 <= k < |g|
  {
    a.(latestEnd := Some(LatestEnd(g, end, k)), latestStart := Some(LatestStart(g, end, k)))
  }

  /** The first `i` activities of `s0` have their earliest times, the rest are untouched. */
  ghost predicate ForwardedUpTo(g: seq<Node>, start: int, s0: seq<Activity>, s: seq<Activity>, i: int)
  {
    Dag(g) && |s0| == |g| && 0 <= i <= |g| && |s| == |s0| &&
    (forall k :: 0 <= k < i ==> s[k] == WithEarliest(g, start, s0[k], k)) &&
    (forall k :: i <= k < |s0| ==> s[k] == s0[k])
  }

  /** The activities of `s0` from position `i` on have their latest times, the rest are untouched. */
  ghost predicate BackwardedFrom(g: seq<Node>, end: int, s0: seq<Activity>, s: seq<Activity>, i: int)
  {
    Dag(g) && |s0| == |g| && 0 <= i <= |g| && |s| == |s0| &&
    (forall k :: i <= k < |s0| ==> s[k] == WithLatest(g, end, s0[k], k)) &&
    (forall k :: 0 <= k < i ==> s[k] == s0[k])
  }

  /** Every activity of `s` has the earliest times the definition gives. */
  ghost predicate EarliestStored(g: seq<Node>, start: int, s: seq<Activity>)
  {
    Dag(g) && |s| == |g| &&
    forall k :: 0 <= k < |s| ==>
      s[k].earliestStart == Some(EarliestStart(g, start, k)) && s[k].earliestEnd == Some(EarliestEnd(g, start, k))
  }

  /** When every predecessor of activity `i` already has its earliest end, the
      forward sweep computes the defined earliest start for `i`. */
  lemma ForwardStep(g: seq<Node>, start: int, s0: seq<Activity>, s: seq<Activity>, i: int)
    requires ForwardedUpTo(g, start, s0, s, i) && i < |s0|
    requires g[i] == NodeOf(s0[i]) && s0[i].predecessors.Some?
    ensures s[i] == s0[i]
    ensures forall p :: p in s[i].predecessors.value ==> p < |s| && s[p].earliestEnd.Some?
    ensures GetEarliestStart(s, start, i) == EarliestStart(g, start, i)
  {
    var ps := s0[i].predecessors.value;
    assert ps == g[i].preds;
    assert forall p :: p in ps ==> p < i && s[p].earliestEnd == Some(EarliestEnd(g, start, p)) by {
      forall p | p in ps
        ensures p < i && s[p].earliestEnd == Some(EarliestEnd(g, start, p))
      {
        assert s[p] == WithEarliest(g, start, s0[p], p);
      }
    }
    if |ps| > 0 {
      var r1 := GetEarliestStart(s, start, i);
      var r2 := EarliestStart(g, start, i);
      var p1 :| p1 in ps && r1 == s[p1].earliestEnd.value;
      EarliestStartIsLastPredecessorEnd(g, start, i);
      var p2 :| p2 in ps && r2 == EarliestEnd(g, start, p2);
      assert r1 >= r2 && r2 >= r1;
    }
  }

  /** `s` with earliest start `v` stored for activity `i`, and the earliest end that goes with it. */
  function SetEarliest(s: seq<Activity>, i: int, v: int): seq<Activity>
    requires 0 <= i < |s|
  {
    s[i := s[i].(earliestStart := Some(v), earliestEnd := Some(v + s[i].duration))]
  }

  /** `s` with latest end `v` stored for activity `i`, and the latest start that goes with it. */
  function SetLatest(s: seq<Activity>, i: int, v: int): seq<Activity>
    requires 0 <= i < |s|
  {
    s[i := s[i].(latestEnd := Some(v), latestStart := Some(v - s[i].duration))]
  }

  /** Storing the defined earliest times of activity `i` extends the done prefix by one. */
  lemma ForwardAdvance(g: seq<Node>, start: int, s0: seq<Activity>, s: seq<Activity>, i: int, v: int)
    requires ForwardedUpTo(g, start, s0, s, i) && i < |s0|
    requires g[i] == NodeOf(s0[i]) && v == EarliestStart(g, start, i)
    ensures ForwardedUpTo(g, start, s0, SetEarliest(s, i, v), i + 1)
  {
    assert s[i] == s0[i];
  }

  /** Every activity has its earliest end stored. */
  predicate EndsStored(s: seq<Activity>)
  {
    forall k :: 0 <= k < |s| ==> s[k].earliestEnd.Some?
  }

  /** The final activities' stored earliest ends can be read: there is at least one
      final activity, and each has its earliest end. */
  predicate FinalsReady(s: seq<Activity>, finals: seq<nat>)
  {
    |finals| > 0 && forall k :: 0 <= k < |finals| ==> finals[k] < |s| && s[finals[k]].earliestEnd.Some?
  }

  /** The end the backward sweep counts back from, as `_get_latest_end` reads it off
      the stored earliest ends: the planned end, unless it is before the latest
      earliest end of a final activity. */
  function StoredEnd(s: seq<Activity>, finals: seq<nat>, planned: Option<int>): int
    requires FinalsReady(s, finals)
  {
    var earliest := LatestStoredEnd(s, finals);
    if planned.Some? && planned.value >= earliest then planned.value else earliest
  }

  /** Is the planned end before the latest stored earliest end of a final activity? */
  predicate StoredEndTooEarly(s: seq<Activity>, finals: seq<nat>, planned: Option<int>)
    requires FinalsReady(s, finals)
  {
    planned.Some? && planned.value < LatestStoredEnd(s, finals)
  }

  /** In a non-empty network whose earliest ends are all stored, the final
      activities' earliest ends can be read. */
  lemma FinalsReadyWhenStored(s: seq<Activity>, finals: seq<nat>)
    requires Linked(s) && Dag(Skeleton(s)) && |s| > 0 && finals == FinalActivities(s) && EndsStored(s)
    ensures FinalsReady(s, finals)
  {
    FinalsAreSinks(s);
    FinalsNonEmpty(Skeleton(s));
    assert forall k :: 0 <= k < |finals| ==> finals[k] in finals;
  }

  /** Only earliest ends are read: two lists that agree on them give the same maximum. */
  lemma {:induction false} LatestStoredEndKept(s: seq<Activity>, t: seq<Activity>, ps: seq<nat>)
    requires |ps| > 0 && forall k :: 0 <= k < |ps| ==> ps[k] < |s| && s[ps[k]].earliestEnd.Some?
    requires |t| == |s| && forall k :: 0 <= k < |s| ==> t[k].earliestEnd == s[k].earliestEnd
    ensures forall k :: 0 <= k < |ps| ==> ps[k] < |t| && t[ps[k]].earliestEnd.Some?
    ensures LatestStoredEnd(t, ps) == LatestStoredEnd(s, ps)
    decreases |ps|
  {
    if |ps| > 1 {
      assert forall k :: 1 <= k < |ps| ==> ps[k] == ps[1..][k - 1];
      LatestStoredEndKept(s, t, ps[1..]);
    }
  }

  /** With the defined earliest ends stored, the latest of them over the final
      activities is the earliest possible project end, so the end the backward sweep
      reads off is the project end of the definition, and it warns exactly when the
      planned end is too early. */
  lemma StoredFinish(g: seq<Node>, start: int, planned: Option<int>, s: seq<Activity>, finals: seq<nat>)
    requires Dag(g) && |g| > 0 && finals == Finals(g) && |s| == |g|
    requires forall k :: 0 <= k < |s| ==> s[k].earliestEnd == Some(EarliestEnd(g, start, k))
    ensures FinalsReady(s, finals)
    ensures StoredEnd(s, finals, planned) == ProjectEnd(g, start, planned)
    ensures StoredEndTooEarly(s, finals, planned) == PlannedEndTooEarly(g, start, planned)
  {
    StoredFinishIsEarliestFinish(g, start, s, finals);
  }

  /** The latest stored earliest end over the final activities is the earliest
      possible project end. */
  lemma StoredFinishIsEarliestFinish(g: seq<Node>, start: int, s: seq<Activity>, finals: seq<nat>)
    requires Dag(g) && |g| > 0 && finals == Finals(g) && |s| == |g|
    requires forall k :: 0 <= k < |s| ==> s[k].earliestEnd == Some(EarliestEnd(g, start, k))
    ensures FinalsReady(s, finals)
    ensures LatestStoredEnd(s, finals) == EarliestFinish(g, start)
  {
    FinalsNonEmpty(g);
    assert forall k :: 0 <= k < |finals| ==> finals[k] in finals;
    var r1 := LatestStoredEnd(s, finals);
    var r2 := EarliestFinish(g, start);
    MaxEarliestEndIsMax(g, start, finals, |g|);
    var k1 :| 0 <= k1 < |finals| && r1 == s[finals[k1]].earliestEnd.value;
    var k2 :| 0 <= k2 < |finals| && r2 == EarliestEnd(g, start, finals[k2]);
    assert r1 >= r2 && r2 >= r1;
  }

  /** When every successor of activity `i` already has its latest start, the
      backward sweep computes the defined latest end for `i`, and warns exactly for
      a final activity when the planned end is too early. */
  lemma BackwardStep(g: seq<Node>, end: int, planned: Option<int>, s0: seq<Activity>, s: seq<Activity>,
                     finals: seq<nat>, i: int)
    requires BackwardedFrom(g, end, s0, s, i + 1) && 0 <= i < |s0|
    requires g[i] == NodeOf(s0[i]) && s0[i].successors.Some?
    requires FinalsReady(s0, finals) && end == StoredEnd(s0, finals, planned)
    ensures s[i] == s0[i]
    ensures forall j :: j in s[i].successors.value ==> j < |s| && s[j].latestStart.Some?
    ensures FinalsReady(s, finals)
    ensures GetLatestEnd(s, finals, planned, i).value == LatestEnd(g, end, i)
    ensures GetLatestEnd(s, finals, planned, i).warning == (IsSink(g[i]) && StoredEndTooEarly(s0, finals, planned))
  {
    var js := s0[i].successors.value;
    assert js == g[i].succs;
    assert forall j :: j in js ==> i < j < |s| && s[j].latestStart == Some(LatestStart(g, end, j)) by {
      forall j | j in js
        ensures i < j < |s| && s[j].latestStart == Some(LatestStart(g, end, j))
      {
        assert s[j] == WithLatest(g, end, s0[j], j);
      }
    }
    assert forall k :: 0 <= k < |s0| ==> s[k].earliestEnd == s0[k].earliestEnd by {
      forall k | 0 <= k < |s0|
        ensures s[k].earliestEnd == s0[k].earliestEnd
      {
        if k > i {
          assert s[k] == WithLatest(g, end, s0[k], k);
        }
      }
    }
    LatestStoredEndKept(s0, s, finals);
    if |js| > 0 {
      var r1 := GetLatestEnd(s, finals, planned, i).value;
      var r2 := LatestEnd(g, end, i);
      var j1 :| j1 in js && r1 == s[j1].latestStart.value;
      LatestEndIsFirstSuccessorStart(g, end, i);
      var j2 :| j2 in js && r2 == LatestStart(g, end, j2);
      assert r1 <= r2 && r2 <= r1;
    }
  }

  /** Storing the defined latest times of activity `i` extends the done suffix by one. */
  lemma BackwardAdvance(g: seq<Node>, end: int, s0: seq<Activity>, s: seq<Activity>, i: int, v: int)
    requires BackwardedFrom(g, end, s0, s, i + 1) && 0 <= i < |s0|
    requires g[i] == NodeOf(s0[i]) && v == LatestEnd(g, end, i)
    ensures BackwardedFrom(g, end, s0, SetLatest(s, i, v), i)
  {
    var t := SetLatest(s, i, v);
    assert t[i] == WithLatest(g, end, s0[i], i) by {
      assert s[i] == s0[i];
    }
    assert forall k :: i < k < |s0| ==> t[k] == WithLatest(g, end, s0[k], k);
    assert forall k :: 0 <= k < i ==> t[k] == s0[k];
  }

  function FinalMark(a: Activity): int
  {
    if IsFinal(a) then 1 else 0
  }

  /** The number of final activities, counted one by one. */
  lemma {:induction false} FinalCount(s: seq<Activity>)
    ensures |FinalActivities(s)| == Sum(s, FinalMark)
    decreases |s|
  {
    if |s| > 0 {
      var init := s[..|s| - 1];
      FinalCount(init);
      assert s == init + [s[|s| - 1]];
      SumAppend(init, [s[|s| - 1]], FinalMark);
    }
  }

  /** Activity `i` gets an earliest start and the earliest end that goes with it. */
  method StoreEarliest(acts: array<Activity>, i: nat, earliestStart: int)
    requires i < acts.Length
    modifies acts
    ensures acts[..] == SetEarliest(old(acts[..]), i, earliestStart)
  {
    acts[i] := acts[i].(earliestStart := Some(earliestStart), earliestEnd := Some(earliestStart + acts[i].duration));
  }

  /** Activity `i` gets a latest end and the latest start that goes with it. */
  method StoreLatest(acts: array<Activity>, i: nat, latestEnd: int)
    requires i < acts.Length
    modifies acts
    ensures acts[..] == SetLatest(old(acts[..]), i, latestEnd)
  {
    acts[i] := acts[i].(latestEnd := Some(latestEnd), latestStart := Some(latestEnd - acts[i].duration));
  }

  /** One step of `_backward_walk`: activity `i` gets the latest end `_get_latest_end`
      chooses, which is the defined latest end; the result says whether the warning
      was printed. */
  method StepBack(acts: array<Activity>, finals: seq<nat>, planned: Option<int>, i: nat,
                  ghost g: seq<Node>, ghost end: int, ghost s0: seq<Activity>) returns (warning: bool)
    requires i < acts.Length && g == Skeleton(s0) && Linked(s0)
    requires BackwardedFrom(g, end, s0, acts[..], i + 1)
    requires FinalsReady(s0, finals) && end == StoredEnd(s0, finals, planned)
    modifies acts
    ensures BackwardedFrom(g, end, s0, acts[..], i)
    ensures warning == (IsSink(g[i]) && StoredEndTooEarly(s0, finals, planned))
  {
    ghost var before := acts[..];
    assert g[i] == NodeOf(s0[i]);
    BackwardStep(g, end, planned, s0, before, finals, i);
    var choice := GetLatestEnd(acts[..], finals, planned, i);
    BackwardAdvance(g, end, s0, before, i, choice.value);
    StoreLatest(acts, i, choice.value);
    warning := choice.warning;
  }

  /** The loop of `_backward_walk`: the activities from last to first, each given
      its latest times, with one warning for each final activity when the planned
      end is too early. */
  method WalkBack(acts: array<Activity>, finals: seq<nat>, planned: Option<int>,
                  ghost g: seq<Node>, ghost end: int, ghost s0: seq<Activity>) returns (warnings: nat)
    requires g == Skeleton(s0) && Linked(s0) && |s0| == acts.Length
    requires BackwardedFrom(g, end, s0, acts[..], acts.Length)
    requires FinalsReady(s0, finals) && end == StoredEnd(s0, finals, planned)
    modifies acts
    ensures BackwardedFrom(g, end, s0, acts[..], 0)
    ensures warnings == if StoredEndTooEarly(s0, finals, planned) then Sum(s0, FinalMark) else 0
  {
    ghost var tooEarly := StoredEndTooEarly(s0, finals, planned);
    warnings := 0;
    var i := acts.Length;
    while i > 0
      invariant 0 <= i <= acts.Length
      invariant BackwardedFrom(g, end, s0, acts[..], i)
      invariant warnings == if tooEarly then Sum(s0[i..], FinalMark) else 0
    {
      i := i - 1;
      var warning := StepBack(acts, finals, planned, i, g, end, s0);
      SumSuffix(s0, i, FinalMark);
      assert FinalMark(s0[i]) == if IsSink(g[i]) then 1 else 0;
      if warning {
        warnings := warnings + 1;
      }
    }
    assert s0[0..] == s0;
  }

  class CriticalPathMethod {
    const project: Project
    const finalActivities: seq<nat>

    /** `CriticalPathMethod(...)` on a constructed project: remembers the final
        activities once. */
    constructor(project: Project)
      requires WiredGraph(project.activities[..])
      ensures this.project == project
      ensures forall k :: k in finalActivities <==> 0 <= k < project.activities.Length && IsFinal(project.activities[k])
      ensures finalActivities == FinalActivities(project.activities[..])
    {
      this.project := project;
      finalActivities := FinalActivities(project.activities[..]);
    }

    /** `_forward_walk`: in list order, each activity gets its earliest start and
        end; in a network these are exactly the defined earliest times. */
    method ForwardWalk()
      requires Linked(project.activities[..]) && Dag(Skeleton(project.activities[..]))
      modifies project.activities
      ensures ForwardedUpTo(Skeleton(old(project.activities[..])), project.start,
                            old(project.activities[..]), project.activities[..], project.activities.Length)
    {
      var acts := project.activities;
      ghost var s0 := acts[..];
      ghost var g := Skeleton(s0);
      var i := 0;
      while i < acts.Length
        invariant 0 <= i <= acts.Length
        invariant ForwardedUpTo(g, project.start, s0, acts[..], i)
      {
        ghost var before := acts[..];
        assert g[i] == NodeOf(s0[i]);
        ForwardStep(g, project.start, s0, before, i);
        var earliestStart := GetEarliestStart(acts[..], project.start, i);
        ForwardAdvance(g, project.start, s0, before, i, earliestStart);
        StoreEarliest(acts, i, earliestStart);
        i := i + 1;
      }
    }

    /** `_backward_walk`: in reverse list order, each activity gets its latest end
        and start, counted back from the project end; these are exactly the defined
        latest times.  A planned end before the earliest possible end is ignored,
        with one warning per final activity. */
    method BackwardWalk() returns (warnings: nat)
      requires Linked(project.activities[..]) && Dag(Skeleton(project.activities[..]))
      requires finalActivities == FinalActivities(project.activities[..]) && EndsStored(project.activities[..])
      modifies project.activities
      ensures project.activities.Length > 0 ==> (FinalsReady(old(project.activities[..]), finalActivities) &&
        BackwardedFrom(Skeleton(old(project.activities[..])),
                       StoredEnd(old(project.activities[..]), finalActivities, project.plannedEnd),
                       old(project.activities[..]), project.activities[..], 0))
      ensures project.activities.Length > 0 ==> (FinalsReady(old(project.activities[..]), finalActivities) &&
        warnings == if StoredEndTooEarly(old(project.activities[..]), finalActivities, project.plannedEnd)
                    then |finalActivities| else 0)
      ensures project.activities.Length == 0 ==> warnings == 0
    {
      var acts := project.activities;
      ghost var s0 := acts[..];
      ghost var g := Skeleton(s0);
      warnings := 0;
      if acts.Length == 0 {
        return;
      }
      FinalsAreSinks(s0);
      FinalsReadyWhenStored(s0, finalActivities);
      ghost var end := StoredEnd(s0, finalActivities, project.plannedEnd);
      assert BackwardedFrom(g, end, s0, acts[..], acts.Length);
      warnings := WalkBack(acts, finalActivities, project.plannedEnd, g, end, s0);
      FinalCount(s0);
    }

    /** `_calculate_time_reserves`: in list order, each activity gets its reserve
        when the two slacks agree; the first activity where they differ stops the
        sweep with a RuntimeError, the activities before it keeping their reserves. */
    method CalculateTimeReserves() returns (r: Outcome)
      requires forall k :: 0 <= k < project.activities.Length ==> TimesSet(project.activities[k])
      modifies project.activities
      ensures r.Pass? <==> forall k :: 0 <= k < project.activities.Length ==> ReservesAgree(old(project.activities[k]))
      ensures r.Pass? ==> (forall k :: 0 <= k < project.activities.Length ==>
                             project.activities[k] == WithReserve(old(project.activities[k])))
      ensures r.Fail? ==> r.error == RuntimeError && FailedAt(old(project.activities[..]), project.activities[..])
    {
      var acts := project.activities;
      var i := 0;
      while i < acts.Length
        invariant 0 <= i <= acts.Length
        invariant forall k :: 0 <= k < i ==> ReservesAgree(old(acts[k])) && acts[k] == WithReserve(old(acts[k]))
        invariant forall k :: i <= k < acts.Length ==> acts[k] == old(acts[k])
      {
        if acts[i].latestStart.value - acts[i].earliestStart.value == acts[i].latestEnd.value - acts[i].earliestEnd.value {
          acts[i] := acts[i].(timeReserve := Some(acts[i].latestStart.value - acts[i].earliestStart.value));
        } else {
          assert FailedAt(old(acts[..]), acts[..]) by {
            assert forall k :: 0 <= k < i ==> ReservesAgree(old(acts[k])) && acts[k] == WithReserve(old(acts[k]));
          }
          return Fail(RuntimeError);
        }
        i := i + 1;
      }
      return Pass;
    }

    /** `_calculate_project_start_end`: the project starts at the smallest earliest
        start and ends at the largest latest end; with no activities, `min` of an
        empty sequence raises ValueError and nothing changes. */
    method CalculateProjectStartEnd() returns (r: Outcome)
      requires forall k :: 0 <= k < project.activities.Length ==>
        project.activities[k].earliestStart.Some? && project.activities[k].latestEnd.Some?
      modifies project
      ensures r.Fail? <==> project.activities.Length == 0
      ensures r.Fail? ==> (r.error == ValueError && project.start == old(project.start) &&
                           project.earliestEnd == old(project.earliestEnd))
      ensures r.Pass? ==> (project.start == FirstStart(project.activities[..]) &&
                           project.earliestEnd == Some(LastEnd(project.activities[..])))
      ensures project.actualEnd == old(project.actualEnd)
      ensures project.totalResourcesRequired == old(project.totalResourcesRequired)
    {
      var acts := project.activities;
      if acts.Length == 0 {
        return Fail(ValueError);
      }
      project.start := FirstStart(acts[..]);
      project.earliestEnd := Some(LastEnd(acts[..]));
      return Pass;
    }

    /** The two sweeps of `solve`: every activity gets the defined earliest and
        latest times, the slacks agree, and the warnings are counted. */
    method Sweeps() returns (warnings: nat)
      requires Linked(project.activities[..]) && Dag(Skeleton(project.activities[..]))
      requires finalActivities == FinalActivities(project.activities[..])
      modifies project.activities
      ensures project.activities.Length == 0 ==> warnings == 0
      ensures project.activities.Length > 0 ==>
        Swept(old(project.activities[..]), project.activities[..], project.start, project.plannedEnd)
      ensures project.activities.Length > 0 ==> (warnings ==
        if PlannedEndTooEarly(Skeleton(old(project.activities[..])), project.start, project.plannedEnd)
        then |finalActivities| else 0)
    {
      var acts := project.activities;
      ghost var s0 := acts[..];
      ghost var g := Skeleton(s0);
      ghost var start := project.start;
      ghost var end := if acts.Length > 0 then ProjectEnd(g, start, project.plannedEnd) else 0;
      ForwardWalk();
      ghost var s1 := acts[..];
      ForwardDone(s0, s1, start, project.plannedEnd, finalActivities);
      warnings := BackwardWalk();
      if acts.Length > 0 {
        SweepsAgree(g, start, end, s0, s1, acts[..]);
      }
    }

    /** `solve`: the two sweeps, the reserves and the project's start and end.  Every
        activity ends up with the defined earliest and latest times and reserve; the
        project keeps its start and ends at the project end of the definition.  With
        no activities the final `min` raises ValueError. */
    method Solve() returns (r: Outcome, warnings: nat)
      requires Linked(project.activities[..]) && Dag(Skeleton(project.activities[..]))
      requires finalActivities == FinalActivities(project.activities[..])
      modifies project, project.activities
      ensures r.Fail? <==> project.activities.Length == 0
      ensures r.Fail? ==> r.error == ValueError && warnings == 0
      ensures r.Pass? ==> Solved(old(project.activities[..]), project.activities[..], old(project.start), project.plannedEnd)
      ensures r.Pass? ==> project.start == old(project.start)
      ensures r.Pass? ==> (project.earliestEnd ==
                           Some(ProjectEnd(Skeleton(old(project.activities[..])), old(project.start), project.plannedEnd)))
      ensures r.Pass? ==> (warnings ==
                           if PlannedEndTooEarly(Skeleton(old(project.activities[..])), old(project.start), project.plannedEnd)
                           then |finalActivities| else 0)
    {
      var acts := project.activities;
      ghost var s0 := acts[..];
      ghost var g := Skeleton(s0);
      ghost var start := project.start;
      warnings := Sweeps();
      ghost var s2 := acts[..];
      var reserves := CalculateTimeReserves();
      r := CalculateProjectStartEnd();
      if acts.Length > 0 {
        assert reserves.Pass?;
        SolvedState(g, start, project.plannedEnd, s0, s2, acts[..]);
        SolvedFirstStart(g, start, acts[..]);
        SolvedLastEnd(g, ProjectEnd(g, start, project.plannedEnd), acts[..]);
      }
    }
  }

  /** After the forward sweep the network and its final activities are as before,
      every earliest end is stored, and the end the backward sweep will read off is
      the project end of the definition. */
  lemma ForwardDone(s0: seq<Activity>, s1: seq<Activity>, start: int, planned: Option<int>, finals: seq<nat>)
    requires Linked(s0) && Dag(Skeleton(s0)) && finals == FinalActivities(s0)
    requires ForwardedUpTo(Skeleton(s0), start, s0, s1, |s0|)
    ensures Linked(s1) && Dag(Skeleton(s1)) && finals == FinalActivities(s1) && EndsStored(s1)
    ensures Skeleton(s1) == Skeleton(s0)
    ensures |s0| > 0 ==> (FinalsReady(s1, finals) &&
                          StoredEnd(s1, finals, planned) == ProjectEnd(Skeleton(s0), start, planned) &&
                          StoredEndTooEarly(s1, finals, planned) == PlannedEndTooEarly(Skeleton(s0), start, planned))
  {
    var g := Skeleton(s0);
    assert SameShape(s0, s1) by {
      forall k | 0 <= k < |s0|
        ensures s1[k] == WithEarliest(g, start, s0[k], k)
      {
      }
    }
    ShapeKept(s0, s1);
    ForwardedIsStored(g, start, s0, s1);
    if |s0| > 0 {
      FinalsAreSinks(s0);
      StoredFinish(g, start, planned, s1, finals);
    }
  }

  /** After the forward sweep every activity has its defined earliest times. */
  lemma ForwardedIsStored(g: seq<Node>, start: int, s0: seq<Activity>, s: seq<Activity>)
    requires ForwardedUpTo(g, start, s0, s, |s0|)
    ensures EarliestStored(g, start, s) && EndsStored(s)
  {
    forall k | 0 <= k < |s|
      ensures s[k].earliestStart == Some(EarliestStart(g, start, k)) && s[k].earliestEnd == Some(EarliestEnd(g, start, k))
    {
      assert s[k] == WithEarliest(g, start, s0[k], k);
    }
  }

  /** After both sweeps every activity has all four times, its two slacks agree,
      and storing its reserve gives the activity the definition describes. */
  lemma SweepsAgree(g: seq<Node>, start: int, end: int, s0: seq<Activity>, s1: seq<Activity>, s2: seq<Activity>)
    requires ForwardedUpTo(g, start, s0, s1, |s0|)
    requires BackwardedFrom(g, end, s1, s2, 0)
    ensures |s2| == |s0|
    ensures forall k :: 0 <= k < |s2| ==>
      TimesSet(s2[k]) && ReservesAgree(s2[k]) && WithReserve(s2[k]) == Solve1(g, start, end, s0[k], k)
  {
    forall k | 0 <= k < |s2|
      ensures TimesSet(s2[k]) && ReservesAgree(s2[k]) && WithReserve(s2[k]) == Solve1(g, start, end, s0[k], k)
    {
      assert s1[k] == WithEarliest(g, start, s0[k], k);
      assert s2[k] == WithLatest(g, end, s1[k], k);
    }
  }

  /** The state `solve` leaves: every activity has the defined times and reserve. */
  lemma SolvedState(g: seq<Node>, start: int, planned: Option<int>, s0: seq<Activity>, s2: seq<Activity>, s: seq<Activity>)
    requires g == Skeleton(s0) && Dag(g) && |g| > 0 && |s2| == |s0| && |s| == |s0|
    requires Swept(s0, s2, start, planned)
    requires forall k :: 0 <= k < |s| ==> s[k] == WithReserve(s2[k])
    ensures Solved(s0, s, start, planned)
    ensures forall k :: 0 <= k < |s| ==> s[k].earliestStart == Some(EarliestStart(g, start, k))
    ensures forall k :: 0 <= k < |s| ==> s[k].latestEnd == Some(LatestEnd(g, ProjectEnd(g, start, planned), k))
  {
  }

  /** After `solve` no activity has a negative time reserve. */
  lemma SolvedReservesNonNegative(s0: seq<Activity>, s: seq<Activity>, start: int, planned: Option<int>)
    requires Ready(s0) && Solved(s0, s, start, planned)
    ensures forall k :: 0 <= k < |s| ==> s[k].timeReserve.Some? && s[k].timeReserve.value >= 0
  {
    var g := Skeleton(s0);
    var end := ProjectEnd(g, start, planned);
    forall k | 0 <= k < |s|
      ensures s[k].timeReserve.Some? && s[k].timeReserve.value >= 0
    {
      assert s[k] == Solve1(g, start, end, s0[k], k);
      ReserveNonNegative(g, start, end, k);
    }
  }


  /** Activity `a`, at position `k`, after `solve`. */
  ghost function Solve1(g: seq<Node>, start: int, end: int, a: Activity, k: int): Activity
    requires Dag(g) && 0 <= k < |g|
  {
    a.(earliestStart := Some(EarliestStart(g, start, k)), earliestEnd := Some(EarliestEnd(g, start, k)),
       latestEnd := Some(LatestEnd(g, end, k)), latestStart := Some(LatestStart(g, end, k)),
       timeReserve := Some(TimeReserve(g, start, end, k)))
  }

  /** After the sweeps: every activity of `s0` has, in `s`, the times the definition
      gives, and its two slacks agree. */
  ghost predicate Swept(s0: seq<Activity>, s: seq<Activity>, start: int, planned: Option<int>)
  {
    Dag(Skeleton(s0)) && |s0| > 0 && |s| == |s0| &&
    forall k :: 0 <= k < |s0| ==>
      TimesSet(s[k]) && ReservesAgree(s[k]) &&
      WithReserve(s[k]) == Solve1(Skeleton(s0), start, ProjectEnd(Skeleton(s0), start, planned), s0[k], k)
  }

  /** Every activity of `s0` has, in `s`, the times and reserve the definition gives. */
  ghost predicate Solved(s0: seq<Activity>, s: seq<Activity>, start: int, planned: Option<int>)
  {
    Dag(Skeleton(s0)) && |s0| > 0 && |s| == |s0| &&
    forall k :: 0 <= k < |s0| ==>
      s[k] == Solve1(Skeleton(s0), start, ProjectEnd(Skeleton(s0), start, planned), s0[k], k)
  }

  /** Two lists that agree on everything the network is made of. */
  predicate SameShape(s: seq<Activity>, t: seq<Activity>)
  {
    |s| == |t| &&
    forall k :: 0 <= k < |s| ==>
      s[k].id == t[k].id && s[k].duration == t[k].duration &&
      s[k].predecessors == t[k].predecessors && s[k].successors == t[k].successors
  }

  /** Filling in times leaves the network, its shape and its final activities as they were. */
  lemma ShapeKept(s: seq<Activity>, t: seq<Activity>)
    requires SameShape(s, t)
    ensures Skeleton(s) == Skeleton(t)
    ensures FinalActivities(s) == FinalActivities(t)
    ensures Linked(s) ==> Linked(t)
    ensures Ready(s) ==> Ready(t)
  {
    forall k | 0 <= k < |s|
      ensures Skeleton(s)[k] == Skeleton(t)[k] && IsFinal(s[k]) == IsFinal(t[k])
    {
    }
    IndicesWhereCongruent(s, IsFinal, t, IsFinal);
  }

  /** After the forward sweep, the smallest earliest start is the project start. */
  lemma SolvedFirstStart(g: seq<Node>, start: int, s: seq<Activity>)
    requires Dag(g) && |g| > 0 && |s| == |g|
    requires forall k :: 0 <= k < |s| ==> s[k].earliestStart == Some(EarliestStart(g, start, k))
    ensures FirstStart(s) == start
  {
    var first := FirstStart(s);
    var k :| 0 <= k < |s| && first == s[k].earliestStart.value;
    EarliestStartBound(g, start, k);
    EarliestStartBound(g, start, 0);
  }

  /** After the backward sweep, the largest latest end is the end it started from. */
  lemma SolvedLastEnd(g: seq<Node>, end: int, s: seq<Activity>)
    requires Dag(g) && |g| > 0 && |s| == |g|
    requires forall k :: 0 <= k < |s| ==> s[k].latestEnd == Some(LatestEnd(g, end, k))
    ensures LastEnd(s) == end
  {
    var last := LastEnd(s);
    var k :| 0 <= k < |s| && last == s[k].latestEnd.value;
    LatestEndBound(g, end, k);
    FinalsNonEmpty(g);
    LatestEndBound(g, end, |g| - 1);
  }

  /** An activity with its five CPM fields cleared. */
  function WithoutTimes(a: Activity): Activity
  {
    a.(earliestStart := None, earliestEnd := None, latestStart := None, latestEnd := None, timeReserve := None)
  }

  /** `solve` changes nothing of an activity but its CPM times and reserve. */
  lemma SolvedKeepsOtherFields(s0: seq<Activity>, s: seq<Activity>, start: int, planned: Option<int>)
    requires Solved(s0, s, start, planned)
    ensures |s| == |s0|
    ensures forall k :: 0 <= k < |s| ==> WithoutTimes(s[k]) == WithoutTimes(s0[k])
  {
    var g := Skeleton(s0);
    var end := ProjectEnd(g, start, planned);
    forall k | 0 <= k < |s|
      ensures WithoutTimes(s[k]) == WithoutTimes(s0[k])
    {
      assert s[k] == Solve1(g, start, end, s0[k], k);
    }
  }
}
