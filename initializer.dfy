/** `ActivitiesInitializer.init_activities` (heuristics/core/activities/initializer.py)
    and its duplicate `CPMActivitiesInitializer.init_activities`
    (heuristics/core/cpm/activities/initializer.py): one model serves both. */
module Initializer {
  import opened Results
  import opened Activities

  /** What the initializer can be handed: a list, whose items may or may not be
      activities, or something that is not a list at all. */
  datatype Element = ActivityElement(activity: Activity) | OtherElement
  datatype Argument = ListOf(items: seq<Element>) | NotAList

  /** The argument check: a list of activities (possibly empty) passes; anything
      else raises TypeError. */
  function ValidateArgument(arg: Argument): (r: Outcome)
    ensures r == Pass <==> arg.ListOf? && forall k :: 0 <= k < |arg.items| ==> arg.items[k].ActivityElement?
    ensures r.Fail? ==> r.error == TypeError
    ensures arg == ListOf([]) ==> r == Pass
  {
    if arg.NotAList? then Fail(TypeError)
    else if |arg.items| > 0 && exists k :: 0 <= k < |arg.items| && arg.items[k].OtherElement? then Fail(TypeError)
    else Pass
  }

  /** Every activity of `s` carries exactly the predecessor and successor lists
      that its id determines within `s`. */
  predicate WiredGraph(s: seq<Activity>)
  {
    forall k :: 0 <= k < |s| ==>
      s[k].predecessors == Some(PredecessorsIn(s, s[k].id)) &&
      s[k].successors == Some(SuccessorsIn(s, s[k].id))
  }

  /** The list after initialization: each activity rewired from the whole list. */
  function Wire(s: seq<Activity>): (r: seq<Activity>)
    ensures |r| == |s|
  {
    seq(|s|, k requires 0 <= k < |s| =>
      s[k].(predecessors := Some(PredecessorsIn(s, s[k].id)), successors := Some(SuccessorsIn(s, s[k].id))))
  }

  /** Initializing wires the graph, touches nothing but the two graph fields, and
      doing it twice changes nothing further. */
  lemma WireSpec(s: seq<Activity>)
    ensures WiredGraph(Wire(s))
    ensures forall k :: 0 <= k < |s| ==> Properties(Wire(s)[k]) == Properties(s[k])
    ensures Wire(Wire(s)) == Wire(s)
  {
    forall id: ActivityIds.ActivityId {
      WiringReadsIds(Wire(s), s, id);
    }
  }

  /** In a wired list, b is a successor of a exactly when a is a predecessor of b. */
  lemma SuccessorIffPredecessor(s: seq<Activity>, a: int, b: int)
    requires WiredGraph(s)
    requires 0 <= a < |s| && 0 <= b < |s|
    ensures b in s[a].successors.value <==> a in s[b].predecessors.value
  {
    PredecessorsInSpec(s, s[b].id);
    SuccessorsInSpec(s, s[a].id);
  }

  /** `init_activities(acts)` on a list of activities: every activity is rewired
      from the whole list, in list order; nothing else changes. */
  method InitActivities(acts: array<Activity>)
    modifies acts
    ensures acts[..] == Wire(old(acts[..]))
  {
    var i := 0;
    while i < acts.Length
      invariant 0 <= i <= acts.Length
      invariant forall k :: 0 <= k < i ==> acts[k] == Wire(old(acts[..]))[k]
      invariant forall k :: i <= k < acts.Length ==> acts[k] == old(acts[k])
    {
      assert SameIds(acts[..], old(acts[..]));
      WiringReadsIds(acts[..], old(acts[..]), acts[i].id);
      DeterminePredecessors(acts, i);
      assert SameIds(acts[..], old(acts[..]));
      WiringReadsIds(acts[..], old(acts[..]), acts[i].id);
      DetermineSuccessors(acts, i);
      i := i + 1;
    }
  }
}
