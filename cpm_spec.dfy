/** The Critical Path Method as a recursive definition over the activity network:
    the values the single forward and backward sweeps of heuristics/core/cpm.py
    must produce. */
module CpmSpec {
  import opened Results
  import opened Sequences
  import opened Activities

  /** What CPM reads of an activity: its duration and its neighbours. */
  datatype Node = Node(duration: nat, preds: seq<nat>, succs: seq<nat>)

  function Links(l: Option<seq<nat>>): seq<nat>
  {
    if l.Some? then l.value else []
  }

  function NodeOf(a: Activity): Node
  {
    Node(a.duration, Links(a.predecessors), Links(a.successors))
  }

  function Skeleton(s: seq<Activity>): seq<Node>
  {
    Map(s, NodeOf)
  }

  /** Predecessors come earlier and successors later: position order is a topological order. */
  predicate Dag(g: seq<Node>)
  {
    (forall i, p :: 0 <= i < |g| && p in g[i].preds ==> p < i) &&
    (forall i, j :: 0 <= i < |g| && j in g[i].succs ==> i < j < |g|)
  }

  /** The successor and predecessor relations mirror each other. */
  predicate Mirrored(g: seq<Node>)
  {
    forall i, j :: 0 <= i < |g| && 0 <= j < |g| ==> (j in g[i].succs <==> i in g[j].preds)
  }

  /** The earliest start: the project start for an activity without predecessors,
      otherwise the latest earliest end among its predecessors. */
  ghost function EarliestStart(g: seq<Node>, start: int, i: int): (r: int)
    requires Dag(g) && 0 <= i < |g|
    ensures |g[i].preds| == 0 ==> r == start
    decreases i, 1, 0
  {
    if |g[i].preds| == 0 then start
    else
      assert forall k :: 0 <= k < |g[i].preds| ==> g[i].preds[k] in g[i].preds;
      MaxEarliestEnd(g, start, g[i].preds, i)
  }

  /** The largest earliest end among the activities at positions `ps`, all below `bound`. */
  ghost function MaxEarliestEnd(g: seq<Node>, start: int, ps: seq<nat>, bound: int): int
    requires Dag(g) && bound <= |g| && |ps| > 0
    requires forall k :: 0 <= k < |ps| ==> ps[k] < bound
    decreases bound, 0, |ps|
  {
    var head := EarliestEnd(g, start, ps[0]);
    if |ps| == 1 then head
    else
      var rest := MaxEarliestEnd(g, start, ps[1..], bound);
      if head >= rest then head else rest
  }

  /** The largest earliest end is at least every one of them and equal to one. */
  lemma {:induction false} MaxEarliestEndIsMax(g: seq<Node>, start: int, ps: seq<nat>, bound: int)
    requires Dag(g) && bound <= |g| && |ps| > 0
    requires forall k :: 0 <= k < |ps| ==> ps[k] < bound
    ensures forall k :: 0 <= k < |ps| ==> MaxEarliestEnd(g, start, ps, bound) >= EarliestEnd(g, start, ps[k])
    ensures exists k :: 0 <= k < |ps| && MaxEarliestEnd(g, start, ps, bound) == EarliestEnd(g, start, ps[k])
    decreases |ps|
  {
    if |ps| > 1 {
      var rest := ps[1..];
      MaxEarliestEndIsMax(g, start, rest, bound);
      assert forall k :: 1 <= k < |ps| ==> ps[k] == rest[k - 1];
      var k :| 0 <= k < |rest| && MaxEarliestEnd(g, start, rest, bound) == EarliestEnd(g, start, rest[k]);
      assert MaxEarliestEnd(g, start, rest, bound) == EarliestEnd(g, start, ps[k + 1]);
    } else {
      assert MaxEarliestEnd(g, start, ps, bound) == EarliestEnd(g, start, ps[0]);
    }
  }

  ghost function EarliestEnd(g: seq<Node>, start: int, i: int): int
    requires Dag(g) && 0 <= i < |g|
    decreases i, 2, 0
  {
    EarliestStart(g, start, i) + g[i].duration
  }

  predicate IsSink(n: Node)
  {
    |n.succs| == 0
  }

  /** The final activities: those without successors. */
  function Finals(g: seq<Node>): seq<nat>
  {
    IndicesWhere(g, IsSink)
  }

  /** Every non-empty network has a final activity: the last one. */
  lemma FinalsNonEmpty(g: seq<Node>)
    requires Dag(g) && |g| > 0
    ensures |g| - 1 in Finals(g)
    ensures |Finals(g)| > 0 && forall k :: 0 <= k < |Finals(g)| ==> Finals(g)[k] < |g|
  {
    assert forall k :: 0 <= k < |Finals(g)| ==> Finals(g)[k] in Finals(g);
    var succs := g[|g| - 1].succs;
    NoMemberIsEmpty(succs);
    assert forall j :: j !in succs;
  }

  lemma NoMemberIsEmpty<T>(s: seq<T>)
    ensures (forall x :: x !in s) ==> s == []
  {
    if s != [] {
      assert s[0] in s;
    }
  }

  /** The earliest possible end of the project: the latest earliest end of a final activity. */
  ghost function EarliestFinish(g: seq<Node>, start: int): int
    requires Dag(g) && |g| > 0
  {
    FinalsNonEmpty(g);
    MaxEarliestEnd(g, start, Finals(g), |g|)
  }

  /** The end the backward pass starts from: the planned end when one is given and it
      is not below the earliest possible end, otherwise the earliest possible end. */
  ghost function ProjectEnd(g: seq<Node>, start: int, planned: Option<int>): (r: int)
    requires Dag(g) && |g| > 0
    ensures r >= EarliestFinish(g, start)
    ensures r == EarliestFinish(g, start) || (planned.Some? && r == planned.value)
    ensures planned.None? ==> r == EarliestFinish(g, start)
  {
    var m := EarliestFinish(g, start);
    if planned.Some? && planned.value >= m then planned.value else m
  }

  /** Is the planned end ignored (and a warning due)? */
  ghost predicate PlannedEndTooEarly(g: seq<Node>, start: int, planned: Option<int>)
    requires Dag(g) && |g| > 0
  {
    planned.Some? && planned.value < EarliestFinish(g, start)
  }

  /** The latest end, counted back from the project end `end`: `end` itself for a
      final activity, otherwise the earliest latest start among its successors. */
  ghost function LatestEnd(g: seq<Node>, end: int, i: int): (r: int)
    requires Dag(g) && 0 <= i < |g|
    ensures |g[i].succs| == 0 ==> r == end
    decreases |g| - i, 1, 0
  {
    if |g[i].succs| == 0 then end
    else
      assert forall k :: 0 <= k < |g[i].succs| ==> g[i].succs[k] in g[i].succs;
      MinLatestStart(g, end, g[i].succs, i)
  }

  /** The smallest latest start among the activities at positions `js`, all above `bound`. */
  ghost function MinLatestStart(g: seq<Node>, end: int, js: seq<nat>, bound: int): int
    requires Dag(g) && 0 <= bound && |js| > 0
    requires forall k :: 0 <= k < |js| ==> bound < js[k] < |g|
    decreases |g| - bound, 0, |js|
  {
    var head := LatestStart(g, end, js[0]);
    if |js| == 1 then head
    else
      var rest := MinLatestStart(g, end, js[1..], bound);
      if head <= rest then head else rest
  }

  /** The smallest latest start is at most every one of them and equal to one. */
  lemma {:induction false} MinLatestStartIsMin(g: seq<Node>, end: int, js: seq<nat>, bound: int)
    requires Dag(g) && 0 <= bound && |js| > 0
    requires forall k :: 0 <= k < |js| ==> bound < js[k] < |g|
    ensures forall k :: 0 <= k < |js| ==> MinLatestStart(g, end, js, bound) <= LatestStart(g, end, js[k])
    ensures exists k :: 0 <= k < |js| && MinLatestStart(g, end, js, bound) == LatestStart(g, end, js[k])
    decreases |js|
  {
    if |js| > 1 {
      var rest := js[1..];
      MinLatestStartIsMin(g, end, rest, bound);
      assert forall k :: 1 <= k < |js| ==> js[k] == rest[k - 1];
      var k :| 0 <= k < |rest| && MinLatestStart(g, end, rest, bound) == LatestStart(g, end, rest[k]);
      assert MinLatestStart(g, end, rest, bound) == LatestStart(g, end, js[k + 1]);
    } else {
      assert MinLatestStart(g, end, js, bound) == LatestStart(g, end, js[0]);
    }
  }

  ghost function LatestStart(g: seq<Node>, end: int, i: int): int
    requires Dag(g) && 0 <= i < |g|
    decreases |g| - i, 2, 0
  {
    LatestEnd(g, end, i) - g[i].duration
  }

  /** An activity with predecessors starts when the last of them ends: no earlier
      than any, and exactly when one of them does. */
  lemma EarliestStartIsLastPredecessorEnd(g: seq<Node>, start: int, i: int)
    requires Dag(g) && 0 <= i < |g|
    ensures forall p :: p in g[i].preds ==> EarliestStart(g, start, i) >= EarliestEnd(g, start, p)
    ensures |g[i].preds| > 0 ==> exists p :: p in g[i].preds && EarliestStart(g, start, i) == EarliestEnd(g, start, p)
  {
    var ps := g[i].preds;
    if |ps| > 0 {
      assert forall k :: 0 <= k < |ps| ==> ps[k] in ps;
      var r := MaxEarliestEnd(g, start, ps, i);
      MaxEarliestEndIsMax(g, start, ps, i);
      var k :| 0 <= k < |ps| && r == EarliestEnd(g, start, ps[k]);
    }
  }

  /** An activity with successors must end when the first of them must start: no
      later than any, and exactly when one of them must. */
  lemma LatestEndIsFirstSuccessorStart(g: seq<Node>, end: int, i: int)
    requires Dag(g) && 0 <= i < |g|
    ensures forall j :: j in g[i].succs ==> LatestEnd(g, end, i) <= LatestStart(g, end, j)
    ensures |g[i].succs| > 0 ==> exists j :: j in g[i].succs && LatestEnd(g, end, i) == LatestStart(g, end, j)
  {
    var js := g[i].succs;
    if |js| > 0 {
      assert forall k :: 0 <= k < |js| ==> js[k] in js;
      var r := MinLatestStart(g, end, js, i);
      MinLatestStartIsMin(g, end, js, i);
      var k :| 0 <= k < |js| && r == LatestStart(g, end, js[k]);
    }
  }

  /** How long the activity can slip without moving the project end. */
  ghost function TimeReserve(g: seq<Node>, start: int, end: int, i: int): int
    requires Dag(g) && 0 <= i < |g|
  {
    LatestStart(g, end, i) - EarliestStart(g, start, i)
  }

  /** No activity starts before the project: every earliest start is at least the
      project start, and the first activity starts exactly then. */
  lemma {:induction false} EarliestStartBound(g: seq<Node>, start: int, i: int)
    requires Dag(g) && 0 <= i < |g|
    ensures EarliestStart(g, start, i) >= start
    ensures i == 0 ==> EarliestStart(g, start, i) == start
    decreases i
  {
    if |g[i].preds| > 0 {
      var es := EarliestStart(g, start, i);
      EarliestStartIsLastPredecessorEnd(g, start, i);
      var p :| p in g[i].preds && es == EarliestEnd(g, start, p);
      EarliestStartBound(g, start, p);
    }
  }

  /** An activity ends no later than any successor can start. */
  lemma PrecedenceRespected(g: seq<Node>, start: int, i: int, j: int)
    requires Dag(g) && Mirrored(g) && 0 <= i < |g| && 0 <= j < |g|
    requires j in g[i].succs
    ensures EarliestEnd(g, start, i) <= EarliestStart(g, start, j)
  {
    assert i in g[j].preds;
    EarliestStartIsLastPredecessorEnd(g, start, j);
  }

  /** Every activity's earliest end is at most the earliest possible project end, so
      that end is the latest earliest end of all activities. */
  lemma {:induction false} EarliestEndBound(g: seq<Node>, start: int, i: int)
    requires Dag(g) && Mirrored(g) && 0 <= i < |g|
    ensures EarliestEnd(g, start, i) <= EarliestFinish(g, start)
    decreases |g| - i
  {
    if |g[i].succs| == 0 {
      assert i in Finals(g);
      FinalsNonEmpty(g);
      MaxEarliestEndIsMax(g, start, Finals(g), |g|);
      var k :| 0 <= k < |Finals(g)| && Finals(g)[k] == i;
    } else {
      var j := g[i].succs[0];
      assert j in g[i].succs;
      PrecedenceRespected(g, start, i, j);
      EarliestEndBound(g, start, j);
    }
  }

  /** The time reserve is never negative when the backward pass starts from an end
      no earlier than the earliest possible one (as the project end always is): every
      activity's latest end is at least its earliest end. */
  lemma {:induction false} ReserveNonNegative(g: seq<Node>, start: int, end: int, i: int)
    requires Dag(g) && Mirrored(g) && 0 <= i < |g|
    requires end >= EarliestFinish(g, start)
    ensures LatestEnd(g, end, i) >= EarliestEnd(g, start, i)
    ensures TimeReserve(g, start, end, i) >= 0
    decreases |g| - i
  {
    if |g[i].succs| == 0 {
      EarliestEndBound(g, start, i);
    } else {
      var le := LatestEnd(g, end, i);
      LatestEndIsFirstSuccessorStart(g, end, i);
      var j :| j in g[i].succs && le == LatestStart(g, end, j);
      ReserveNonNegative(g, start, end, j);
      EarliestStartBound(g, start, j);
      PrecedenceRespected(g, start, i, j);
    }
  }

  /** No activity's latest end is after the end the pass starts from, and a final
      activity's is exactly that end: it is the latest of all latest ends. */
  lemma {:induction false} LatestEndBound(g: seq<Node>, end: int, i: int)
    requires Dag(g) && 0 <= i < |g|
    ensures LatestEnd(g, end, i) <= end
    ensures i in Finals(g) ==> LatestEnd(g, end, i) == end
    decreases |g| - i
  {
    if |g[i].succs| > 0 {
      var j := g[i].succs[0];
      assert j in g[i].succs;
      LatestEndIsFirstSuccessorStart(g, end, i);
      LatestEndBound(g, end, j);
    }
  }
}
