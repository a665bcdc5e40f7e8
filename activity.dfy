/** An activity of the project network and its static, CPM and heuristic fields
    (heuristics/core/activities/activity.py). */
module Activities {
  import opened Results
  import opened ActivityIds

  /** One activity.  The graph fields hold positions in the project's activity list
      (None until the graph is wired); every time field is None until a solver sets it.
      `priority` is the attribute the parallel schedulers attach; None means it was
      never assigned. */
  datatype Activity = Activity(
    id: ActivityId,
    duration: nat,
    resources: nat,
    totalResources: nat,
    predecessors: Option<seq<nat>>,
    successors: Option<seq<nat>>,
    earliestStart: Option<int>,
    earliestEnd: Option<int>,
    latestStart: Option<int>,
    latestEnd: Option<int>,
    timeReserve: Option<int>,
    actualStart: Option<int>,
    actualEnd: Option<int>,
    priority: Option<int>)

  /** The id argument of the constructor: an ActivityID, or its text form. */
  datatype IdArg = GivenId(id: ActivityId) | IdText(text: string)

  /** Duration and resources must both be given and non-negative. */
  function ValidateDurationResources(duration: Option<int>, resources: Option<int>): (r: Outcome)
    ensures r == Pass <==> duration.Some? && resources.Some? && duration.value >= 0 && resources.value >= 0
    ensures (duration.None? || resources.None?) <==> r == Fail(TypeError)
    ensures r.Fail? ==> r.error in {TypeError, ValueError}
  {
    if duration.None? || resources.None? then Fail(TypeError)
    else if duration.value < 0 || resources.value < 0 then Fail(ValueError)
    else Pass
  }

  function ResolveId(id: IdArg): (r: Result<ActivityId>)
    ensures id.GivenId? ==> r == Ok(id.id)
    ensures id.IdText? ==> r == FromStr(id.text)
  {
    match id
    case GivenId(i) => Ok(i)
    case IdText(t) => FromStr(t)
  }

  /** `Activity(id, duration, resources, ...)`: the id is resolved first, then
      duration and resources are validated; the heuristic fields start unset. */
  function NewActivity(id: IdArg, duration: Option<int>, resources: Option<int>,
                       predecessors: Option<seq<nat>>, successors: Option<seq<nat>>,
                       earliestStart: Option<int>, earliestEnd: Option<int>,
                       latestStart: Option<int>, latestEnd: Option<int>,
                       timeReserve: Option<int>): (r: Result<Activity>)
    ensures ResolveId(id).Err? ==> r == Err(ResolveId(id).error)
    ensures ResolveId(id).Ok? ==>
      (r.Ok? <==> ValidateDurationResources(duration, resources) == Pass) &&
      (r.Err? ==> r.error == ValidateDurationResources(duration, resources).error)
    ensures r.Ok? ==>
      var a := r.value;
      Ok(a.id) == ResolveId(id) && a.duration == duration.value && a.resources == resources.value &&
      a.totalResources == a.duration * a.resources &&
      a.predecessors == predecessors && a.successors == successors &&
      a.earliestStart == earliestStart && a.earliestEnd == earliestEnd &&
      a.latestStart == latestStart && a.latestEnd == latestEnd && a.timeReserve == timeReserve &&
      !IsScheduled(a) && a.actualEnd.None? && a.priority.None?
  {
    match ResolveId(id)
    case Err(e) => Err(e)
    case Ok(i) =>
      match ValidateDurationResources(duration, resources)
      case Fail(e) => Err(e)
      case Pass =>
        var d: nat, res: nat := duration.value, resources.value;
        Ok(Activity(i, d, res, res * d, predecessors, successors,
                    earliestStart, earliestEnd, latestStart, latestEnd, timeReserve,
                    None, None, None))
  }

  /** The three-argument form every caller uses. */
  function Basic(id: IdArg, duration: Option<int>, resources: Option<int>): Result<Activity>
  {
    NewActivity(id, duration, resources, None, None, None, None, None, None, None)
  }

  /** A freshly built activity is unwired, has no CPM times, is not scheduled and is
      not finished at any time. */
  lemma FreshActivity(id: IdArg, duration: Option<int>, resources: Option<int>, t: int)
    requires Basic(id, duration, resources).Ok?
    ensures var a := Basic(id, duration, resources).value;
      a.predecessors.None? && a.successors.None? &&
      a.earliestStart.None? && a.earliestEnd.None? && a.latestStart.None? &&
      a.latestEnd.None? && a.timeReserve.None? &&
      !IsScheduled(a) && !IsFinished(a, t)
  {
  }

  predicate IsScheduled(a: Activity)
  {
    a.actualStart.Some?
  }

  /** Finished by `time`: scheduled with an end no later than `time`.  An unscheduled
      activity is not finished. */
  predicate IsFinished(a: Activity, time: int)
  {
    a.actualEnd.Some? && a.actualEnd.value <= time
  }

  /** `is_finished` as written: `actual_end <= time`, which raises TypeError when
      `actual_end` is None. */
  function IsFinishedAsWritten(a: Activity, time: int): (r: Result<bool>)
    ensures r.Err? <==> a.actualEnd.None?
    ensures r.Err? ==> r.error == TypeError
    ensures r.Ok? ==> r.value == IsFinished(a, time)
  {
    if a.actualEnd.None? then Err(TypeError) else Ok(a.actualEnd.value <= time)
  }

  /** Asking whether a not yet scheduled activity is finished raises TypeError,
      while it is plainly not finished. */
  lemma UnscheduledIsFinishedRaises(a: Activity, time: int)
    requires a.actualEnd.None?
    ensures IsFinishedAsWritten(a, time) == Err(TypeError)
    ensures !IsFinished(a, time)
  {
  }

  /** The entry of a Gantt chart: label, start, end, resource. */
  datatype Timeframe = Timeframe(labelText: string, start: Option<int>, end: Option<int>, resource: nat)

  /** `get_timeframe(kind)`: the CPM window for "cpm", the scheduled window for
      "serial_method", ValueError for any other kind. */
  function GetTimeframe(a: Activity, kind: string): (r: Result<Timeframe>)
    ensures r.Ok? <==> kind == "cpm" || kind == "serial_method"
    ensures r.Err? ==> r.error == ValueError
    ensures r.Ok? ==> r.value.labelText == ToStr(a.id) && FromStr(r.value.labelText) == Ok(a.id)
    ensures r.Ok? ==> r.value.resource == a.resources
    ensures kind == "cpm" ==> r.Ok? && r.value.start == a.earliestStart && r.value.end == a.earliestEnd
    ensures kind == "serial_method" ==> r.Ok? && r.value.start == a.actualStart && r.value.end == a.actualEnd
  {
    RoundTrip(a.id);
    if kind == "cpm" then Ok(Timeframe(ToStr(a.id), a.earliestStart, a.earliestEnd, a.resources))
    else if kind == "serial_method" then Ok(Timeframe(ToStr(a.id), a.actualStart, a.actualEnd, a.resources))
    else Err(ValueError)
  }

  /** `as_dict`: the activity without its predecessor and successor lists. */
  function Properties(a: Activity): Activity
  {
    a.(predecessors := None, successors := None)
  }

  /** The other operand of `==`: an Activity, or an object of another kind. */
  datatype ActivityOperand = ActivityArg(activity: Activity) | NotActivity

  /** `a == other`: compares every field except the predecessor and successor lists;
      another kind of operand raises NotImplementedError. */
  function Equals(a: Activity, other: ActivityOperand): (r: Result<bool>)
    ensures other.NotActivity? <==> r == Err(NotImplementedError)
    ensures other.ActivityArg? ==> r.Ok? && (r.value <==>
      var b := other.activity;
      a.id == b.id && a.duration == b.duration && a.resources == b.resources &&
      a.totalResources == b.totalResources &&
      a.earliestStart == b.earliestStart && a.earliestEnd == b.earliestEnd &&
      a.latestStart == b.latestStart && a.latestEnd == b.latestEnd &&
      a.timeReserve == b.timeReserve && a.actualStart == b.actualStart &&
      a.actualEnd == b.actualEnd && a.priority == b.priority)
  {
    match other
    case ActivityArg(b) => Ok(Properties(a) == Properties(b))
    case NotActivity => Err(NotImplementedError)
  }

  /** Rewiring an activity does not change what it is equal to. */
  lemma EqualsIgnoresWiring(a: Activity, preds: Option<seq<nat>>, succs: Option<seq<nat>>)
    ensures Equals(a, ActivityArg(a.(predecessors := preds, successors := succs))) == Ok(true)
  {
  }

  /** Equality of activities is an equivalence. */
  lemma EqualsIsEquivalence(a: Activity, b: Activity, c: Activity)
    ensures Equals(a, ActivityArg(a)) == Ok(true)
    ensures Equals(a, ActivityArg(b)) == Equals(b, ActivityArg(a))
    ensures Equals(a, ActivityArg(b)) == Ok(true) && Equals(b, ActivityArg(c)) == Ok(true) ==>
      Equals(a, ActivityArg(c)) == Ok(true)
  {
  }

  /** The positions of `s` whose element satisfies `p`, in ascending order. */
  function IndicesWhere<T>(s: seq<T>, p: T -> bool): (r: seq<nat>)
    ensures forall k :: k in r <==> 0 <= k < |s| && p(s[k])
    ensures forall m, n :: 0 <= m < n < |r| ==> r[m] < r[n]
    decreases |s|
  {
    if |s| == 0 then []
    else
      var init := IndicesWhere(s[..|s| - 1], p);
      forall m | 0 <= m < |init|
        ensures init[m] < |s| - 1
      {
        assert init[m] in init;
      }
      if p(s[|s| - 1]) then init + [|s| - 1] else init
  }

  /** The filter looks only at the property it checks of each element. */
  lemma {:induction false} IndicesWhereCongruent<T, U>(s: seq<T>, p: T -> bool, t: seq<U>, q: U -> bool)
    requires |s| == |t|
    requires forall k :: 0 <= k < |s| ==> p(s[k]) == q(t[k])
    ensures IndicesWhere(s, p) == IndicesWhere(t, q)
    decreases |s|
  {
    if |s| > 0 {
      IndicesWhereCongruent(s[..|s| - 1], p, t[..|t| - 1], q);
    }
  }

  /** Does activity `a` end where activity `b` starts? */
  predicate Precedes(a: ActivityId, b: ActivityId)
  {
    a.endNode == b.startNode
  }

  /** `determine_predecessors(L)`: the positions in L of the activities that end where `id` starts. */
  function PredecessorsIn(s: seq<Activity>, id: ActivityId): seq<nat>
  {
    IndicesWhere(s, (b: Activity) => Precedes(b.id, id))
  }

  /** `determine_successors(L)`: the positions in L of the activities that start where `id` ends. */
  function SuccessorsIn(s: seq<Activity>, id: ActivityId): seq<nat>
  {
    IndicesWhere(s, (b: Activity) => Precedes(id, b.id))
  }

  lemma PredecessorsInSpec(s: seq<Activity>, id: ActivityId)
    ensures forall k :: k in PredecessorsIn(s, id) <==> 0 <= k < |s| && s[k].id.endNode == id.startNode
    ensures forall m, n :: 0 <= m < n < |PredecessorsIn(s, id)| ==>
      PredecessorsIn(s, id)[m] < PredecessorsIn(s, id)[n]
  {
  }

  lemma SuccessorsInSpec(s: seq<Activity>, id: ActivityId)
    ensures forall k :: k in SuccessorsIn(s, id) <==> 0 <= k < |s| && s[k].id.startNode == id.endNode
    ensures forall m, n :: 0 <= m < n < |SuccessorsIn(s, id)| ==>
      SuccessorsIn(s, id)[m] < SuccessorsIn(s, id)[n]
  {
  }

  /** Two lists with the same ids, position by position. */
  predicate SameIds(s: seq<Activity>, t: seq<Activity>)
  {
    |s| == |t| && forall k :: 0 <= k < |s| ==> s[k].id == t[k].id
  }

  /** Wiring reads nothing but the ids of the list. */
  lemma WiringReadsIds(s: seq<Activity>, t: seq<Activity>, id: ActivityId)
    requires SameIds(s, t)
    ensures PredecessorsIn(s, id) == PredecessorsIn(t, id)
    ensures SuccessorsIn(s, id) == SuccessorsIn(t, id)
  {
    IndicesWhereCongruent(s, (b: Activity) => Precedes(b.id, id), t, (b: Activity) => Precedes(b.id, id));
    IndicesWhereCongruent(s, (b: Activity) => Precedes(id, b.id), t, (b: Activity) => Precedes(id, b.id));
  }

  /** `acts[i].determine_predecessors(acts)`: replaces the predecessor list of the
      activity at position i and changes nothing else. */
  method DeterminePredecessors(acts: array<Activity>, i: int)
    requires 0 <= i < acts.Length
    modifies acts
    ensures acts[..] == old(acts[..])[i := old(acts[i]).(predecessors := Some(PredecessorsIn(old(acts[..]), old(acts[i]).id)))]
  {
    acts[i] := acts[i].(predecessors := Some(PredecessorsIn(acts[..], acts[i].id)));
  }

  /** `acts[i].determine_successors(acts)`: replaces the successor list of the
      activity at position i and changes nothing else. */
  method DetermineSuccessors(acts: array<Activity>, i: int)
    requires 0 <= i < acts.Length
    modifies acts
    ensures acts[..] == old(acts[..])[i := old(acts[i]).(successors := Some(SuccessorsIn(old(acts[..]), old(acts[i]).id)))]
  {
    acts[i] := acts[i].(successors := Some(SuccessorsIn(acts[..], acts[i].id)));
  }
}
