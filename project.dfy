/** The project: its activities sorted by id and wired, the resource limit, and the
    start/end fields the solvers fill in (heuristics/core/project.py; the CPM-only
    twin heuristics/core/cpm/project/project.py has the same constructor, with the
    field `end` for `earliestEnd` and no `actualEnd`). */
module Projects {
  import opened Results
  import opened Tuples
  import opened Sorting
  import opened Sequences
  import opened ActivityIds
  import opened Activities
  import opened Initializer

  /** The sort key of an activity: its id as a tuple. */
  function IdKey(a: Activity): seq<int>
  {
    Key(a.id)
  }

  /** Ascending by id: no activity has a smaller id than one before it. */
  predicate SortedById(s: seq<Activity>)
  {
    forall p, q :: 0 <= p < q < |s| ==> !Less(s[q].id, s[p].id)
  }

  predicate DistinctIds(s: seq<Activity>)
  {
    forall p, q :: 0 <= p < q < |s| ==> s[p].id != s[q].id
  }

  /** Every activity leads from a lower node to a strictly higher one. */
  predicate ForwardIds(s: seq<Activity>)
  {
    forall k :: 0 <= k < |s| ==> s[k].id.startNode < s[k].id.endNode
  }

  /** What the solvers need of a constructed project: wired, sorted, and every id
      pointing forward, so that ascending order is a topological order. */
  predicate Network(s: seq<Activity>)
  {
    WiredGraph(s) && SortedById(s) && ForwardIds(s)
  }

  function TotalOf(a: Activity): int
  {
    a.totalResources
  }

  /** `_get_total_resources_required`: the sum of the activities' total resources. */
  function TotalResources(s: seq<Activity>): int
  {
    Sum(s, TotalOf)
  }

  /** The activities without their graph fields. */
  function Unwired(s: seq<Activity>): seq<Activity>
  {
    Map(s, Properties)
  }

  class Project {
    const activities: array<Activity>
    const rMax: int
    var start: int
    var earliestEnd: Option<int>
    const plannedEnd: Option<int>
    var totalResourcesRequired: int
    var actualEnd: Option<int>

    /** `Project(activities, r_max, start, end, planned_end)`: sorts the caller's
        list in place by id, wires every activity, and keeps that very list.  The
        list holds the same activities as before, reordered; the total is unchanged
        by the reordering. */
    constructor(acts: array<Activity>, rMax: int, start: int, end: Option<int>, plannedEnd: Option<int>)
      modifies acts
      ensures activities == acts
      ensures WiredGraph(acts[..]) && SortedById(acts[..])
      ensures multiset(Unwired(acts[..])) == multiset(Unwired(old(acts[..])))
      ensures totalResourcesRequired == TotalResources(acts[..]) == TotalResources(old(acts[..]))
      ensures this.rMax == rMax && this.start == start && earliestEnd == end
      ensures this.plannedEnd == plannedEnd && actualEnd.None?
    {
      ghost var input := acts[..];
      SortActivitiesById(acts);
      ghost var sorted := acts[..];
      InitActivities(acts);
      WireSpec(sorted);
      assert SortedById(acts[..]) by {
        assert SameIds(acts[..], sorted);
      }
      assert Unwired(acts[..]) == Unwired(sorted);
      MapPermutation(sorted, input, Properties);
      SumPointwise(acts[..], TotalOf, sorted, TotalOf);
      SumPermutation(sorted, input, TotalOf);
      activities := acts;
      this.rMax := rMax;
      this.start := start;
      earliestEnd := end;
      this.plannedEnd := plannedEnd;
      totalResourcesRequired := TotalResources(acts[..]);
      actualEnd := None;
    }
  }

  /** `_sort_activities_by_id`: an in-place sort, ascending by id. */
  method SortActivitiesById(acts: array<Activity>)
    modifies acts
    ensures SortedById(acts[..])
    ensures multiset(acts[..]) == multiset(old(acts[..]))
  {
    SortByKey(acts, IdKey);
    forall p, q | 0 <= p < q < acts.Length
      ensures !Less(acts[q].id, acts[p].id)
    {
      LessIsTupleOrder(acts[q].id, acts[p].id);
    }
  }

  /** With distinct ids, sorted by id means strictly ascending. */
  lemma SortedDistinctIsStrict(s: seq<Activity>)
    requires SortedById(s) && DistinctIds(s)
    ensures forall p, q :: 0 <= p < q < |s| ==> Less(s[p].id, s[q].id)
  {
    forall p, q | 0 <= p < q < |s|
      ensures Less(s[p].id, s[q].id)
    {
      LessIsStrictTotalOrder(s[p].id, s[q].id, s[q].id);
    }
  }

  /** In a project whose ids all point forward, every predecessor sits before the
      activity and every successor after it. */
  lemma PredecessorBeforeSuccessor(s: seq<Activity>, i: int)
    requires Network(s)
    requires 0 <= i < |s|
    ensures forall p :: p in s[i].predecessors.value ==> p < i
    ensures forall j :: j in s[i].successors.value ==> i < j < |s|
  {
    PredecessorsInSpec(s, s[i].id);
    SuccessorsInSpec(s, s[i].id);
    forall p | p in s[i].predecessors.value
      ensures p < i
    {
      if p >= i {
        assert Less(s[p].id, s[i].id);
      }
    }
    forall j | j in s[i].successors.value
      ensures i < j < |s|
    {
      if j <= i {
        assert Less(s[i].id, s[j].id);
      }
    }
  }

  /** An activity built by the three-argument constructor from an id and two numbers. */
  function Fresh(startNode: int, endNode: int, duration: nat, resources: nat): Activity
    requires 1 <= startNode <= endNode
  {
    Activity(NodePair(startNode, endNode), duration, resources, duration * resources,
             None, None, None, None, None, None, None, None, None, None)
  }

  lemma FreshIsBasic(startNode: int, endNode: int, duration: nat, resources: nat)
    requires 1 <= startNode <= endNode
    ensures Basic(GivenId(NodePair(startNode, endNode)), Some(duration), Some(resources))
      == Ok(Fresh(startNode, endNode, duration, resources))
  {
  }

  /** The two project fixtures require 130 and 110 resources in total. */
  lemma FixtureTotals()
    ensures TotalResources([Fresh(1, 2, 4, 3), Fresh(1, 3, 6, 5), Fresh(2, 3, 3, 3),
                            Fresh(2, 5, 3, 3), Fresh(2, 6, 3, 3), Fresh(3, 5, 4, 3),
                            Fresh(4, 5, 4, 5), Fresh(4, 6, 4, 5), Fresh(5, 6, 3, 3)]) == 130
    ensures TotalResources([Fresh(1, 2, 4, 3), Fresh(1, 3, 6, 5), Fresh(1, 4, 5, 4),
                            Fresh(2, 3, 3, 3), Fresh(2, 4, 3, 3), Fresh(2, 5, 3, 3),
                            Fresh(2, 6, 3, 3), Fresh(3, 5, 4, 3)]) == 110
  {
  }
}
