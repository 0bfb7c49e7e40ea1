/** The plan analyser: depth-first cycle detection, a topological order, longest
    distances with lags of either sign, the critical path and the schedule warnings. */
module DependencyAnalysis {
  import opened Wrappers
  import opened Graph

  const DAY := 86_400_000

  datatype Node = Node(id: Id, projectId: string, dueDate: Option<int>, estimate: Option<int>, completed: bool)

  datatype Warning =
    | Cycle(issueIds: set<Id>)
    | MissingDate(fromId: Id, toId: Id)
    | ImpossibleOrder(fromId: Id, toId: Id)
    | CrossProjectConflict(fromId: Id, toId: Id)
    | BlockedMilestone(fromId: Id, toId: Id)

  /** What the analyser returns, with the two intermediate tables it reads it from. */
  datatype Report = Report(
    edges: seq<Edge>, warnings: seq<Warning>, criticalPath: seq<Id>, durationDays: int,
    order: seq<Id>, distance: map<Id, int>)

  /** A later node with the same id replaces an earlier one. */
  function ById(nodes: seq<Node>): (m: map<Id, Node>)
    ensures forall id <- m :: m[id].id == id && m[id] in nodes
    ensures forall n <- nodes :: n.id in m
  {
    if nodes == [] then map[]
    else
      var last := nodes[|nodes| - 1];
      assert forall n <- nodes :: n in nodes[..|nodes| - 1] || n == last;
      ById(nodes[..|nodes| - 1])[last.id := last]
  }

  /** The last node of an id is the one that counts. */
  lemma {:induction false} LaterReplaces(nodes: seq<Node>, i: nat)
    requires i < |nodes| && forall j :: i < j < |nodes| ==> nodes[j].id != nodes[i].id
    ensures ById(nodes)[nodes[i].id] == nodes[i]
    decreases |nodes|
  {
    if i < |nodes| - 1 { LaterReplaces(nodes[..|nodes| - 1], i); }
  }

  /** The blocking edges with both ends visible, in their given order. */
  function VisibleBlocks(visible: set<Id>, edges: seq<Edge>): (r: seq<Edge>)
    ensures forall e :: e in r <==> e in edges && e.kind == "blocks" && e.fromId in visible && e.toId in visible
    ensures |r| <= |edges|
  {
    if edges == [] then []
    else
      var e := edges[0];
      var rest := VisibleBlocks(visible, edges[1..]);
      if e.kind == "blocks" && e.fromId in visible && e.toId in visible then [e] + rest else rest
  }

  /** Kept one by one, so in their order and as often as given. */
  lemma {:induction false} VisiblePiecewise(visible: set<Id>, a: seq<Edge>, b: seq<Edge>)
    ensures VisibleBlocks(visible, a + b) == VisibleBlocks(visible, a) + VisibleBlocks(visible, b)
    decreases |a|
  {
    if a == [] {
      assert a + b == b;
    } else {
      assert (a + b)[1..] == a[1..] + b;
      VisiblePiecewise(visible, a[1..], b);
    }
  }

  /** The estimate in days, at least one, and one where there is none. */
  function NodeDuration(n: Node): (days: int)
    ensures days >= 1 && (n.estimate.Some? ==> days >= n.estimate.value)
    ensures days > 1 ==> n.estimate == Some(days)
  {
    var days := n.estimate.GetOr(1);
    if days > 1 then days else 1
  }

  function Duration(byId: map<Id, Node>): Id -> int {
    id => if id in byId then NodeDuration(byId[id]) else 1
  }

  /** The warnings one edge gives rise to. */
  function EdgeWarnings(from: Node, to: Node, lagDays: int): seq<Warning> {
    (if from.dueDate.None? || to.dueDate.None? then [MissingDate(from.id, to.id)]
     else if to.dueDate.value < from.dueDate.value + lagDays * DAY then
       [if from.projectId == to.projectId then ImpossibleOrder(from.id, to.id)
        else CrossProjectConflict(from.id, to.id)]
     else [])
    + if !from.completed && to.completed then [BlockedMilestone(from.id, to.id)] else []
  }

  function ScheduleWarnings(byId: map<Id, Node>, es: seq<Edge>): (r: seq<Warning>)
    requires forall e <- es :: e.fromId in byId && e.toId in byId
  {
    if es == [] then []
    else
      var last := es[|es| - 1];
      ScheduleWarnings(byId, es[..|es| - 1]) + EdgeWarnings(byId[last.fromId], byId[last.toId], last.lagDays)
  }

  function CycleWarnings(cyclic: set<Id>): seq<Warning> {
    if cyclic != {} then [Cycle(cyclic)] else []
  }

  function Elements(s: seq<Id>): set<Id> {
    set x <- s
  }

  ghost predicate NoDuplicates(s: seq<Id>) {
    forall i, j :: 0 <= i < j < |s| ==> s[i] != s[j]
  }

  /** Every successor of a node in `order` stands before it. */
  ghost predicate PostOrder(es: seq<Edge>, order: seq<Id>) {
    forall e, i :: e in es && 0 <= i < |order| && order[i] == e.fromId ==> e.toId in order[..i]
  }

  /** Every predecessor of a node in `order` stands before it. */
  ghost predicate Topological(es: seq<Edge>, order: seq<Id>) {
    forall e, i :: e in es && 0 <= i < |order| && order[i] == e.toId ==> e.fromId in order[..i]
  }

  /** Consecutive ids of `trail` are joined by edges. */
  ghost predicate Trail(es: seq<Edge>, trail: seq<Id>) {
    forall i :: 0 <= i < |trail| - 1 ==> Linked(es, trail[i], trail[i + 1])
  }

  lemma {:induction false} TrailWalks(es: seq<Edge>, trail: seq<Id>, i: nat, j: nat) returns (w: seq<Edge>)
    requires Trail(es, trail) && i <= j < |trail|
    ensures Walk(es, trail[i], w, trail[j]) && |w| == j - i
    decreases j
  {
    if i == j {
      w := [];
    } else {
      assert Linked(es, trail[j - 1], trail[j - 1 + 1]);
      var e :| e in es && e.fromId == trail[j - 1] && e.toId == trail[j];
      w := TrailWalks(es, trail, i, j - 1);
      WalkStep(es, trail[i], w, e);
      w := w + [e];
    }
  }

  lemma TrailExtends(es: seq<Edge>, trail: seq<Id>, e: Edge)
    requires trail != [] && Trail(es, trail) && e in es && e.fromId == trail[|trail| - 1]
    ensures Trail(es, trail + [e.toId])
    ensures (trail + [e.toId])[..|trail|] == trail
  {
    var longer := trail + [e.toId];
    assert Linked(es, trail[|trail| - 1], e.toId);
    forall i | 0 <= i < |longer| - 1 ensures Linked(es, longer[i], longer[i + 1]) {
      if i < |trail| - 1 {
        assert Linked(es, trail[i], trail[i + 1]);
      }
    }
  }

  /** A trail that returns to an earlier id runs around a cycle from there on. */
  lemma TrailCloses(es: seq<Edge>, trail: seq<Id>, start: nat, k: nat)
    requires Trail(es, trail) && start <= k < |trail| && start < |trail| - 1
    requires trail[start] == trail[|trail| - 1]
    ensures OnCycle(es, trail[k])
  {
    var last := |trail| - 1;
    if k == start {
      var w := TrailWalks(es, trail, start, last);
    } else {
      var w1 := TrailWalks(es, trail, k, last);
      var w2 := TrailWalks(es, trail, start, k);
      WalkConcat(es, trail[k], w1, trail[last], w2, trail[k]);
      assert w1 + w2 != [];
    }
  }

  method IndexOf(s: seq<Id>, x: Id) returns (i: nat)
    requires x in s
    ensures i < |s| && s[i] == x && x !in s[..i]
  {
    i := 0;
    while s[i] != x
      invariant i < |s| && x !in s[..i]
      decreases |s| - i
    {
      i := i + 1;
    }
  }

  function EdgesAt(m: map<Id, seq<Edge>>, id: Id): seq<Edge> {
    if id in m then m[id] else []
  }

  ghost predicate Outgoing(es: seq<Edge>, m: map<Id, seq<Edge>>) {
    forall id :: LeavesFrom(es, id, EdgesAt(m, id))
  }

  ghost predicate LeavesFrom(es: seq<Edge>, id: Id, bucket: seq<Edge>) {
    forall e :: e in bucket <==> e in es && e.fromId == id
  }

  ghost predicate Incoming(es: seq<Edge>, m: map<Id, seq<Edge>>) {
    forall id :: ArrivesAt(es, id, EdgesAt(m, id))
  }

  ghost predicate ArrivesAt(es: seq<Edge>, id: Id, bucket: seq<Edge>) {
    forall e :: e in bucket <==> e in es && e.toId == id
  }

  method BuildAdjacency(es: seq<Edge>) returns (outgoing: map<Id, seq<Edge>>, incoming: map<Id, seq<Edge>>)
    ensures Outgoing(es, outgoing) && Incoming(es, incoming)
  {
    outgoing, incoming := map[], map[];
    for i := 0 to |es|
      invariant Outgoing(es[..i], outgoing) && Incoming(es[..i], incoming)
    {
      var e := es[i];
      ghost var out, into := outgoing, incoming;
      outgoing := outgoing[e.fromId := EdgesAt(outgoing, e.fromId) + [e]];
      incoming := incoming[e.toId := EdgesAt(incoming, e.toId) + [e]];
      assert es[..i + 1] == es[..i] + [e];
      forall id ensures LeavesFrom(es[..i + 1], id, EdgesAt(outgoing, id)) {
        assert LeavesFrom(es[..i], id, EdgesAt(out, id));
      }
      forall id ensures ArrivesAt(es[..i + 1], id, EdgesAt(incoming, id)) {
        assert ArrivesAt(es[..i], id, EdgesAt(into, id));
      }
    }
    assert es[..|es|] == es;
  }

  lemma PostOrderExtends(es: seq<Edge>, order: seq<Id>, id: Id)
    requires PostOrder(es, order) && id !in order
    requires forall e <- es :: e.fromId == id ==> e.toId in order
    ensures PostOrder(es, order + [id])
  {
    forall e, i | e in es && 0 <= i < |order| + 1 && (order + [id])[i] == e.fromId
      ensures e.toId in (order + [id])[..i]
    {
      assert (order + [id])[..i] == order[..i];
      assert order[..|order|] == order;
    }
  }

  /** The mutable state that the nested depth-first function closes over. */
  class Search {
    const ids: set<Id>
    const edges: seq<Edge>
    const outgoing: map<Id, seq<Edge>>
    var visiting: set<Id>
    var visited: set<Id>
    var cyclic: set<Id>
    var order: seq<Id>

    ghost predicate Valid()
      reads this
    {
      && (forall e <- edges :: e.fromId in ids && e.toId in ids)
      && Outgoing(edges, outgoing)
      && visited == Elements(order) && NoDuplicates(order)
      && visiting !! visited && visiting + visited <= ids
      && (forall c <- cyclic :: OnCycle(edges, c))
      && (cyclic == {} ==> PostOrder(edges, order))
    }

    constructor (ids: set<Id>, edges: seq<Edge>, outgoing: map<Id, seq<Edge>>)
      requires forall e <- edges :: e.fromId in ids && e.toId in ids
      requires Outgoing(edges, outgoing)
      ensures Valid() && fresh(this) && this.ids == ids && this.edges == edges
      ensures visiting == {} && visited == {} && cyclic == {} && order == []
    {
      this.ids, this.edges, this.outgoing := ids, edges, outgoing;
      visiting, visited, cyclic, order := {}, {}, {}, [];
    }

    /** The depth-first visit; `trail` is the path of open visits with `id` at its end. */
    method Visit(id: Id, trail: seq<Id>)
      requires Valid() && id in ids
      requires trail != [] && trail[|trail| - 1] == id && Trail(edges, trail)
      requires visiting == Elements(trail[..|trail| - 1])
      modifies this
      ensures Valid() && visiting == old(visiting)
      ensures old(order) <= order && old(cyclic) <= cyclic
      ensures id in visited || (id in visiting && cyclic != {})
      decreases ids - visiting, 0
    {
      if id in visiting {
        ReportCycle(id, trail);
        return;
      }
      if id in visited {
        return;
      }
      visiting := visiting + {id};
      assert trail == trail[..|trail| - 1] + [id];
      VisitSuccessors(id, trail);
      Finish(id);
    }

    /** The loop of the visit over the outgoing edges of an open id. */
    method VisitSuccessors(id: Id, trail: seq<Id>)
      requires Valid() && id in ids
      requires trail != [] && trail[|trail| - 1] == id && Trail(edges, trail)
      requires visiting == Elements(trail)
      modifies this
      ensures Valid() && visiting == old(visiting)
      ensures old(order) <= order && old(cyclic) <= cyclic
      ensures cyclic == {} ==> forall e <- edges :: e.fromId == id ==> e.toId in visited
      decreases ids - visiting, 1
    {
      var out := EdgesAt(outgoing, id);
      assert LeavesFrom(edges, id, out);
      for i := 0 to |out|
        invariant Valid() && visiting == old(visiting)
        invariant old(order) <= order && old(cyclic) <= cyclic
        invariant forall j :: 0 <= j < i ==> out[j].toId in visited || cyclic != {}
      {
        assert out[i] in out;
        TrailExtends(edges, trail, out[i]);
        Visit(out[i].toId, trail + [out[i].toId]);
      }
    }

    /** An open id is met again: everything on the trail since then lies on a cycle. */
    method ReportCycle(id: Id, trail: seq<Id>)
      requires Valid() && id in visiting
      requires trail != [] && trail[|trail| - 1] == id && Trail(edges, trail)
      requires id in trail[..|trail| - 1]
      modifies this`cyclic
      ensures Valid() && cyclic != {} && old(cyclic) <= cyclic
    {
      var start := IndexOf(trail, id);
      forall k | start <= k < |trail| ensures OnCycle(edges, trail[k]) {
        TrailCloses(edges, trail, start, k);
      }
      cyclic := cyclic + Elements(trail[start..]);
      assert trail[start..][0] in cyclic;
    }

    method Finish(id: Id)
      requires Valid() && id in visiting
      requires cyclic == {} ==> forall e <- edges :: e.fromId == id ==> e.toId in visited
      modifies this`visiting, this`visited, this`order
      ensures Valid() && visiting == old(visiting) - {id}
      ensures order == old(order) + [id]
    {
      if cyclic == {} {
        PostOrderExtends(edges, order, id);
      }
      visiting := visiting - {id};
      visited := visited + {id};
      order := order + [id];
    }
  }

  // ---- The order

  /** Positions in a complete post-order fall along every edge, so there is no cycle. */
  lemma PostOrderIsAcyclic(es: seq<Edge>, order: seq<Id>)
    requires PostOrder(es, order) && NoDuplicates(order)
    requires forall e <- es :: e.fromId in order && e.toId in order
    ensures Acyclic(es)
  {
    var rank := Ranks(order);
    forall e <- es ensures e.fromId in rank && e.toId in rank && rank[e.fromId] < rank[e.toId] {
      var i :| 0 <= i < |order| && order[i] == e.fromId;
      var j :| 0 <= j < i && order[j] == e.toId;
    }
    RankedIsAcyclic(es, rank);
  }

  /** Minus the position of every id in a duplicate-free list. */
  ghost function Ranks(order: seq<Id>): (m: map<Id, int>)
    requires NoDuplicates(order)
    ensures forall i :: 0 <= i < |order| ==> order[i] in m && m[order[i]] == -i
    decreases |order|
  {
    if order == [] then map[]
    else
      var n := |order| - 1;
      Ranks(order[..n])[order[n] := -n]
  }

  function Reversed(s: seq<Id>): (r: seq<Id>)
    ensures |r| == |s| && forall i :: 0 <= i < |s| ==> r[i] == s[|s| - 1 - i]
  {
    seq(|s|, i requires 0 <= i < |s| => s[|s| - 1 - i])
  }

  lemma ReversedPostOrder(es: seq<Edge>, order: seq<Id>)
    requires PostOrder(es, order) && NoDuplicates(order)
    requires forall e <- es :: e.fromId in order
    ensures Topological(es, Reversed(order))
  {
    var rev, n := Reversed(order), |order|;
    forall e, i | e in es && 0 <= i < n && rev[i] == e.toId ensures e.fromId in rev[..i] {
      var k :| 0 <= k < n && order[k] == e.fromId;
      var j :| 0 <= j < k && order[j] == e.toId;
      assert order[n - 1 - i] == order[j];
      assert rev[..i][n - 1 - k] == e.fromId;
    }
  }

  /** Runs the search from every node in turn. */
  method DepthFirst(nodes: seq<Node>, ids: set<Id>, edges: seq<Edge>, outgoing: map<Id, seq<Edge>>)
    returns (order: seq<Id>, cyclic: set<Id>)
    requires forall id :: id in ids <==> exists n <- nodes :: n.id == id
    requires forall e <- edges :: e.fromId in ids && e.toId in ids
    requires Outgoing(edges, outgoing)
    ensures Elements(order) == ids && NoDuplicates(order)
    ensures cyclic == {} <==> Acyclic(edges)
    ensures forall c <- cyclic :: OnCycle(edges, c)
    ensures cyclic == {} ==> PostOrder(edges, order)
  {
    var search := new Search(ids, edges, outgoing);
    for i := 0 to |nodes|
      invariant search.Valid() && search.visiting == {}
      invariant search.ids == ids && search.edges == edges
      invariant forall j :: 0 <= j < i ==> nodes[j].id in search.visited
    {
      assert nodes[i] in nodes;
      search.Visit(nodes[i].id, [nodes[i].id]);
    }
    order, cyclic := search.order, search.cyclic;
    forall id <- ids ensures id in search.visited {
      var n :| n in nodes && n.id == id;
      var j :| 0 <= j < |nodes| && nodes[j] == n;
    }
    if cyclic == {} {
      PostOrderIsAcyclic(edges, order);
    } else {
      var c := SomeElement(cyclic);
      assert OnCycle(edges, c);
    }
  }

  // ---- Longest distances

  lemma SomeElement<T>(s: set<T>) returns (x: T)
    requires s != {}
    ensures x in s
  {
    x :| x in s;
  }

  /** A predecessor entry explains the recorded distance; without one it is the bare duration. */
  ghost predicate Explained(
    es: seq<Edge>, duration: Id -> int, distance: map<Id, int>, predecessor: map<Id, Id>, id: Id)
  {
    id in distance &&
    if id in predecessor then
      exists e :: e in es && e.toId == id && e.fromId == predecessor[id] && e.fromId in distance
        && distance[id] == distance[e.fromId] + e.lagDays + duration(id)
    else distance[id] == duration(id)
  }

  lemma LongestFromIncoming(es: seq<Edge>, duration: Id -> int, distance: map<Id, int>, id: Id, best: int)
    requires forall e <- es :: e.toId == id ==>
      e.fromId in distance && IsLongestTo(es, duration, e.fromId, distance[e.fromId])
    requires best >= duration(id)
    requires forall e <- es :: e.toId == id ==> distance[e.fromId] + e.lagDays + duration(id) <= best
    requires best == duration(id)
      || exists e <- es :: e.toId == id && distance[e.fromId] + e.lagDays + duration(id) == best
    ensures IsLongestTo(es, duration, id, best)
  {
    forall a, w: seq<Edge> | Walk(es, a, w, id) ensures Weight(duration, a, w) <= best {
      if w != [] {
        WalkLast(es, a, w, id);
        var last := w[|w| - 1];
        assert Weight(duration, a, w[..|w| - 1]) <= distance[last.fromId];
      }
    }
    if best == duration(id) {
      assert Walk(es, id, [], id) && Weight(duration, id, []) == best;
    } else {
      var e :| e in es && e.toId == id && distance[e.fromId] + e.lagDays + duration(id) == best;
      var a, w :| Walk(es, a, w, e.fromId) && Weight(duration, a, w) == distance[e.fromId];
      WalkStep(es, a, w, e);
      assert (w + [e])[..|w|] == w;
      assert Weight(duration, a, w + [e]) == best;
    }
  }

  /** The edge at `k` is the first that offers `best`. */
  ghost predicate FirstBest(
    byId: map<Id, Node>, distance: map<Id, int>, id: Id, into: seq<Edge>, k: nat, best: int)
  {
    && k < |into| && Reached(byId, distance, into[k].fromId) + into[k].lagDays + Duration(byId)(id) == best
    && forall j :: 0 <= j < k ==>
         Reached(byId, distance, into[j].fromId) + into[j].lagDays + Duration(byId)(id) < best
  }

  /** The first of the first `n` edges that offers `best` comes from the id. */
  ghost predicate TakenFrom(
    byId: map<Id, Node>, distance: map<Id, int>, id: Id, into: seq<Edge>, fromId: Id, n: nat, best: int)
  {
    n <= |into|
    && exists k :: 0 <= k < n && into[k].fromId == fromId && FirstBest(byId, distance, id, into, k, best)
  }

  /** `best` is the duration or the best that the edges offer, whichever is more; a predecessor is recorded
      for the first edge that offers more than the duration. */
  ghost predicate Relaxed(
    id: Id, into: seq<Edge>, byId: map<Id, Node>, distance: map<Id, int>, predecessor: map<Id, Id>,
    best: int, pred: map<Id, Id>)
  {
    && best >= Duration(byId)(id)
    && (forall e <- into :: Reached(byId, distance, e.fromId) + e.lagDays + Duration(byId)(id) <= best)
    && (forall k :: k != id ==> (k in pred <==> k in predecessor) && (k in pred ==> pred[k] == predecessor[k]))
    && (id !in predecessor && id !in pred ==> best == Duration(byId)(id))
    && (id !in predecessor && id in pred ==>
          && best > Duration(byId)(id) && TakenFrom(byId, distance, id, into, pred[id], |into|, best)
          && exists e <- into ::
               e.fromId == pred[id] && best == Reached(byId, distance, e.fromId) + e.lagDays + Duration(byId)(id))
  }

  /** One turn of the distance loop: the best candidate over the edges into `id`. */
  method Relax(id: Id, into: seq<Edge>, byId: map<Id, Node>, distance: map<Id, int>, predecessor: map<Id, Id>)
    returns (best: int, pred: map<Id, Id>)
    ensures Relaxed(id, into, byId, distance, predecessor, best, pred)
  {
    best, pred := Duration(byId)(id), predecessor;
    for i := 0 to |into|
      invariant best >= Duration(byId)(id)
      invariant forall j :: 0 <= j < i ==>
        Reached(byId, distance, into[j].fromId) + into[j].lagDays + Duration(byId)(id) <= best
      invariant forall k :: k != id ==> (k in pred <==> k in predecessor) && (k in pred ==> pred[k] == predecessor[k])
      invariant id !in predecessor && id !in pred ==> best == Duration(byId)(id)
      invariant id !in predecessor && id in pred ==> exists e <- into ::
        e.fromId == pred[id] && best == Reached(byId, distance, e.fromId) + e.lagDays + Duration(byId)(id)
      invariant id !in predecessor && id in pred ==>
        best > Duration(byId)(id) && TakenFrom(byId, distance, id, into, pred[id], i, best)
    {
      var e := into[i];
      var candidate := Reached(byId, distance, e.fromId) + e.lagDays + Duration(byId)(id);
      if candidate > best {
        assert e in into;
        best := candidate;
        assert FirstBest(byId, distance, id, into, i, best);
        pred := pred[id := e.fromId];
      }
    }
  }

  /** The distance recorded for an id, or its bare duration when there is none yet. */
  function Reached(byId: map<Id, Node>, distance: map<Id, int>, id: Id): int {
    if id in distance then distance[id] else Duration(byId)(id)
  }

  /** What an edge offers its end when the ids in `before` have their distances. */
  ghost function Offer(duration: Id -> int, before: seq<Id>, distance: map<Id, int>, e: Edge): int {
    (if e.fromId in before && e.fromId in distance then distance[e.fromId] else duration(e.fromId))
    + e.lagDays + duration(e.toId)
  }

  /** `d` is the best that an edge into `id` offers, if that is better than its duration. */
  ghost predicate IsBestOffer(
    es: seq<Edge>, duration: Id -> int, before: seq<Id>, distance: map<Id, int>, id: Id, d: int)
  {
    && d >= duration(id) && (forall e <- es :: e.toId == id ==> Offer(duration, before, distance, e) <= d)
    && (d == duration(id) || exists e <- es :: e.toId == id && Offer(duration, before, distance, e) == d)
  }

  /** Cycles or not, each distance is the best offer at the time the id comes in the order. */
  ghost predicate LocallyBest(es: seq<Edge>, duration: Id -> int, order: seq<Id>, distance: map<Id, int>) {
    forall i :: 0 <= i < |order| ==>
      order[i] in distance && IsBestOffer(es, duration, order[..i], distance, order[i], distance[order[i]])
  }

  lemma LocalStep(
    es: seq<Edge>, byId: map<Id, Node>, before: seq<Id>, distance: map<Id, int>, id: Id, into: seq<Edge>,
    predecessor: map<Id, Id>, best: int, pred: map<Id, Id>)
    requires LocallyBest(es, Duration(byId), before, distance) && id !in before && distance.Keys == Elements(before)
    requires ArrivesAt(es, id, into) && id !in predecessor
    requires Relaxed(id, into, byId, distance, predecessor, best, pred)
    ensures LocallyBest(es, Duration(byId), before + [id], distance[id := best])
  {
    var after, order, duration := distance[id := best], before + [id], Duration(byId);
    forall i | 0 <= i < |order|
      ensures order[i] in after && IsBestOffer(es, duration, order[..i], after, order[i], after[order[i]])
    {
      var head := order[..i];
      assert id !in head && head == before[..i];
      forall e ensures Offer(duration, head, after, e) == Offer(duration, head, distance, e) {}
      if i == |before| {
        assert head == before;
        forall e <- into
          ensures Offer(duration, before, distance, e)
            == Reached(byId, distance, e.fromId) + e.lagDays + duration(id)
        {
          assert e.fromId in before <==> e.fromId in Elements(before);
        }
      } else {
        assert order[i] in before && order[i] == before[i];
        assert IsBestOffer(es, duration, before[..i], distance, before[i], distance[before[i]]);
      }
    }
  }

  method Distances(order: seq<Id>, byId: map<Id, Node>, es: seq<Edge>, incoming: map<Id, seq<Edge>>)
    returns (distance: map<Id, int>, predecessor: map<Id, Id>)
    requires NoDuplicates(order) && Incoming(es, incoming)
    ensures distance.Keys == Elements(order)
    ensures forall id <- predecessor :: Linked(es, predecessor[id], id)
    ensures LocallyBest(es, Duration(byId), order, distance)
    ensures Topological(es, order) ==> forall id <- order ::
      IsLongestTo(es, Duration(byId), id, distance[id]) && Explained(es, Duration(byId), distance, predecessor, id)
  {
    distance, predecessor := map[], map[];
    for i := 0 to |order|
      invariant Settled(order, i, byId, es, distance, predecessor)
    {
      var id := order[i];
      var into := EdgesAt(incoming, id);
      assert ArrivesAt(es, id, into);
      var best, pred := Relax(id, into, byId, distance, predecessor);
      SettledStep(order, i, byId, es, into, distance, predecessor, best, pred);
      distance, predecessor := distance[id := best], pred;
    }
    assert order[..|order|] == order;
    assert forall id <- order :: exists j :: 0 <= j < |order| && order[j] == id;
  }

  /** What the loop has settled after `n` ids. */
  ghost predicate Settled(
    order: seq<Id>, n: nat, byId: map<Id, Node>, es: seq<Edge>, distance: map<Id, int>, predecessor: map<Id, Id>)
  {
    && n <= |order| && Recorded(order[..n], es, distance, predecessor)
    && LocallyBest(es, Duration(byId), order[..n], distance)
    && RightSoFar(order, n, byId, es, distance, predecessor)
  }

  ghost predicate Recorded(front: seq<Id>, es: seq<Edge>, distance: map<Id, int>, predecessor: map<Id, Id>) {
    && distance.Keys == Elements(front) && predecessor.Keys <= distance.Keys
    && forall id <- predecessor :: Linked(es, predecessor[id], id)
  }

  lemma RecordedStep(
    front: seq<Id>, id: Id, byId: map<Id, Node>, es: seq<Edge>, into: seq<Edge>,
    distance: map<Id, int>, predecessor: map<Id, Id>, best: int, pred: map<Id, Id>)
    requires Recorded(front, es, distance, predecessor) && id !in Elements(front) && ArrivesAt(es, id, into)
    requires Relaxed(id, into, byId, distance, predecessor, best, pred)
    ensures Recorded(front + [id], es, distance[id := best], pred)
  {
    assert Elements(front + [id]) == Elements(front) + {id};
    PredecessorsLinked(es, into, byId, distance, id, predecessor, best, pred);
    forall k <- pred ensures k in distance[id := best] {
      if k != id { assert k in predecessor; }
    }
  }

  lemma FrontGrows(order: seq<Id>, i: nat)
    requires i < |order| && NoDuplicates(order)
    ensures order[i] !in order[..i] && order[i] !in Elements(order[..i])
    ensures order[..i + 1] == order[..i] + [order[i]]
    ensures Elements(order[..i + 1]) == Elements(order[..i]) + {order[i]}
  {}

  lemma SettledStep(
    order: seq<Id>, i: nat, byId: map<Id, Node>, es: seq<Edge>, into: seq<Edge>,
    distance: map<Id, int>, predecessor: map<Id, Id>, best: int, pred: map<Id, Id>)
    requires i < |order| && NoDuplicates(order) && Settled(order, i, byId, es, distance, predecessor)
    requires ArrivesAt(es, order[i], into)
    requires Relaxed(order[i], into, byId, distance, predecessor, best, pred)
    ensures Settled(order, i + 1, byId, es, distance[order[i] := best], pred)
  {
    var id, front := order[i], order[..i];
    FrontGrows(order, i);
    RecordedStep(front, id, byId, es, into, distance, predecessor, best, pred);
    LocalStep(es, byId, front, distance, id, into, predecessor, best, pred);
    RightStep(order, i, byId, es, into, distance, predecessor, best, pred);
  }

  /** In a topological order the distances so far are the longest, with their predecessors. */
  ghost predicate RightSoFar(
    order: seq<Id>, n: nat, byId: map<Id, Node>, es: seq<Edge>, distance: map<Id, int>, predecessor: map<Id, Id>)
  {
    && n <= |order| && (forall j :: 0 <= j < n ==> order[j] in distance)
    && (Topological(es, order) ==> forall j :: 0 <= j < n ==>
          IsLongestTo(es, Duration(byId), order[j], distance[order[j]])
          && Explained(es, Duration(byId), distance, predecessor, order[j]))
  }

  lemma RightStep(
    order: seq<Id>, i: nat, byId: map<Id, Node>, es: seq<Edge>, into: seq<Edge>,
    distance: map<Id, int>, predecessor: map<Id, Id>, best: int, pred: map<Id, Id>)
    requires i < |order| && RightSoFar(order, i, byId, es, distance, predecessor) && order[i] !in order[..i]
    requires distance.Keys == Elements(order[..i]) && order[i] !in predecessor
    requires ArrivesAt(es, order[i], into)
    requires Relaxed(order[i], into, byId, distance, predecessor, best, pred)
    ensures RightSoFar(order, i + 1, byId, es, distance[order[i] := best], pred)
  {
    if Topological(es, order) {
      DistanceStep(order, i, byId, es, into, distance, predecessor, best, pred);
      forall j | 0 <= j < i ensures order[j] != order[i] { assert order[..i][j] == order[j]; }
    }
  }

  lemma PredecessorsLinked(
    es: seq<Edge>, into: seq<Edge>, byId: map<Id, Node>, distance: map<Id, int>, id: Id,
    predecessor: map<Id, Id>, best: int, pred: map<Id, Id>)
    requires ArrivesAt(es, id, into) && forall k <- predecessor :: Linked(es, predecessor[k], k)
    requires id !in predecessor && Relaxed(id, into, byId, distance, predecessor, best, pred)
    ensures forall k <- pred :: Linked(es, pred[k], k)
  {
    forall k <- pred ensures Linked(es, pred[k], k) {
      if k == id {
        var e :| e in into && e.fromId == pred[id];
        assert e in es && e.toId == id;
      } else {
        assert k in predecessor;
      }
    }
  }

  lemma DistanceStep(
    order: seq<Id>, i: nat, byId: map<Id, Node>, es: seq<Edge>, into: seq<Edge>,
    distance: map<Id, int>, predecessor: map<Id, Id>, best: int, pred: map<Id, Id>)
    requires i < |order| && Topological(es, order) && order[i] !in order[..i]
    requires distance.Keys == Elements(order[..i]) && order[i] !in predecessor
    requires ArrivesAt(es, order[i], into)
    requires forall j :: 0 <= j < i ==> IsLongestTo(es, Duration(byId), order[j], distance[order[j]])
    requires forall j :: 0 <= j < i ==> Explained(es, Duration(byId), distance, predecessor, order[j])
    requires Relaxed(order[i], into, byId, distance, predecessor, best, pred)
    ensures IsLongestTo(es, Duration(byId), order[i], best)
    ensures forall j :: 0 <= j <= i ==> Explained(es, Duration(byId), distance[order[i] := best], pred, order[j])
  {
    var id, after := order[i], distance[order[i] := best];
    forall e <- es | e.toId == id
      ensures e.fromId in distance && IsLongestTo(es, Duration(byId), e.fromId, distance[e.fromId])
      ensures e in into
    {
      assert e.fromId in order[..i];
    }
    LongestFromIncoming(es, Duration(byId), distance, id, best);
    forall j | 0 <= j <= i ensures Explained(es, Duration(byId), after, pred, order[j]) {
      if j < i {
        assert order[j] in order[..i];
        assert Explained(es, Duration(byId), distance, predecessor, order[j]);
      } else if id in pred {
        var e :| e in into && e.fromId == pred[id]
          && best == Reached(byId, distance, e.fromId) + e.lagDays + Duration(byId)(id);
        assert e in es && e.toId == id && e.fromId in after;
      }
    }
  }

  // ---- The critical path

  /** The ids a walk passes, its start included. */
  ghost function WalkIds(a: Id, w: seq<Edge>): seq<Id> {
    if w == [] then [a] else WalkIds(a, w[..|w| - 1]) + [w[|w| - 1].toId]
  }

  lemma {:induction false} WalkPrepend(es: seq<Edge>, duration: Id -> int, e: Edge, w: seq<Edge>, b: Id)
    requires e in es && Walk(es, e.toId, w, b)
    ensures Walk(es, e.fromId, [e] + w, b)
    ensures Weight(duration, e.fromId, [e] + w) == duration(e.fromId) + e.lagDays + Weight(duration, e.toId, w)
    ensures WalkIds(e.fromId, [e] + w) == [e.fromId] + WalkIds(e.toId, w)
    decreases |w|
  {
    var all := [e] + w;
    if w == [] {
      assert all[..0] == [] && all[0] == e;
    } else {
      WalkPrepend(es, duration, e, w[..|w| - 1], w[|w| - 1].fromId);
      assert all[..|w|] == [e] + w[..|w| - 1];
    }
  }

  lemma {:induction false} WalkIdReached(es: seq<Edge>, a: Id, w: seq<Edge>, b: Id, x: Id)
    requires Walk(es, a, w, b) && x in WalkIds(a, w)
    ensures Reaches(es, a, x)
    decreases |w|
  {
    if x != b {
      WalkIdReached(es, a, w[..|w| - 1], w[|w| - 1].fromId, x);
    }
  }

  /** `path` lists the ids of a walk whose weight beyond its first node explains
      the difference of the distances recorded at its two ends. */
  ghost predicate Traced(es: seq<Edge>, duration: Id -> int, distance: map<Id, int>, path: seq<Id>, w: seq<Edge>) {
    && path != [] && path[0] in distance && path[|path| - 1] in distance
    && Walk(es, path[0], w, path[|path| - 1]) && WalkIds(path[0], w) == path
    && distance[path[|path| - 1]] - distance[path[0]] == Weight(duration, path[0], w) - duration(path[0])
  }

  lemma TraceStep(
    es: seq<Edge>, duration: Id -> int, distance: map<Id, int>, predecessor: map<Id, Id>,
    path: seq<Id>, w: seq<Edge>) returns (longer: seq<Edge>)
    requires Traced(es, duration, distance, path, w) && Acyclic(es)
    requires Explained(es, duration, distance, predecessor, path[0]) && path[0] in predecessor
    ensures predecessor[path[0]] !in path
    ensures Traced(es, duration, distance, [predecessor[path[0]]] + path, longer)
  {
    var e :| e in es && e.toId == path[0] && e.fromId == predecessor[path[0]] && e.fromId in distance
      && distance[path[0]] == distance[e.fromId] + e.lagDays + duration(path[0]);
    longer := [e] + w;
    WalkPrepend(es, duration, e, w, path[|path| - 1]);
    if e.fromId in path {
      EdgeBackCycles(es, path[0], w, path[|path| - 1], e);
    }
  }

  lemma EdgeBackCycles(es: seq<Edge>, a: Id, w: seq<Edge>, b: Id, e: Edge)
    requires Walk(es, a, w, b) && e in es && e.toId == a && e.fromId in WalkIds(a, w)
    ensures OnCycle(es, a)
  {
    WalkIdReached(es, a, w, b, e.fromId);
    var back :| Walk(es, a, back, e.fromId);
    WalkStep(es, a, back, e);
    assert back + [e] != [];
  }

  /** Follows the predecessor table back from `start`. */
  method CriticalPath(
    start: Id, distance: map<Id, int>, predecessor: map<Id, Id>, ghost es: seq<Edge>, ghost duration: Id -> int)
    returns (path: seq<Id>, ghost w: seq<Edge>)
    requires start in distance
    requires forall id <- predecessor :: predecessor[id] in distance
    ensures path != [] && path[|path| - 1] == start && forall i :: 0 <= i < |path| ==> path[i] in distance
    ensures Acyclic(es) && (forall id <- distance :: Explained(es, duration, distance, predecessor, id)) ==>
      Walk(es, path[0], w, start) && WalkIds(path[0], w) == path && Weight(duration, path[0], w) == distance[start]
  {
    ghost var sound := Acyclic(es) && forall id <- distance :: Explained(es, duration, distance, predecessor, id);
    var cursor := Some(start);
    path, w := [], [];
    while cursor.Some? && cursor.value !in path
      invariant path == [] ==> cursor == Some(start) && w == []
      invariant path != [] ==> path[|path| - 1] == start
      invariant path != [] ==> cursor == (if path[0] in predecessor then Some(predecessor[path[0]]) else None)
      invariant forall i :: 0 <= i < |path| ==> path[i] in distance
      invariant cursor.Some? ==> cursor.value in distance
      invariant path != [] && sound ==> Traced(es, duration, distance, path, w)
      invariant path != [] && sound && cursor.Some? ==> cursor.value !in path
      decreases distance.Keys - Elements(path)
    {
      ghost var before := path;
      if before != [] && sound {
        w := TraceStep(es, duration, distance, predecessor, path, w);
      }
      path := [cursor.value] + path;
      assert cursor.value in Elements(path) && cursor.value !in Elements(before);
      assert Elements(before) <= Elements(path);
      cursor := if cursor.value in predecessor then Some(predecessor[cursor.value]) else None;
      if before == [] {
        assert w == [] && path == [start];
        assert Traced(es, duration, distance, path, []);
      }
      if sound && path[0] in predecessor {
        var longer := TraceStep(es, duration, distance, predecessor, path, w);
      }
    }
    assert sound ==> Explained(es, duration, distance, predecessor, path[0]);
  }

  /** The head of the entries sorted by falling distance, then by collation. */
  method Furthest(order: seq<Id>, distance: map<Id, int>, collation: Id -> real) returns (best: Option<Id>)
    requires forall i :: 0 <= i < |order| ==> order[i] in distance
    ensures best.None? <==> order == []
    ensures best.Some? ==> best.value in order && best.value in distance
    ensures best.Some? ==> forall i :: 0 <= i < |order| ==>
      distance[order[i]] < distance[best.value]
      || (distance[order[i]] == distance[best.value] && collation(best.value) <= collation(order[i]))
  {
    best := None;
    for i := 0 to |order|
      invariant best.None? <==> i == 0
      invariant best.Some? ==> best.value in order && best.value in distance
      invariant best.Some? ==> forall j :: 0 <= j < i ==>
        distance[order[j]] < distance[best.value]
        || (distance[order[j]] == distance[best.value] && collation(best.value) <= collation(order[j]))
    {
      var id := order[i];
      if best.None? || distance[id] > distance[best.value]
        || (distance[id] == distance[best.value] && collation(id) < collation(best.value))
      {
        best := Some(id);
      }
    }
  }

  method MaxDistance(path: seq<Id>, distance: map<Id, int>) returns (max: int)
    requires path != [] && forall i :: 0 <= i < |path| ==> path[i] in distance
    ensures exists i :: 0 <= i < |path| && distance[path[i]] == max
    ensures forall i :: 0 <= i < |path| ==> distance[path[i]] <= max
  {
    max := distance[path[0]];
    for i := 1 to |path|
      invariant exists j :: 0 <= j < i && distance[path[j]] == max
      invariant forall j :: 0 <= j < i ==> distance[path[j]] <= max
    {
      if distance[path[i]] > max { max := distance[path[i]]; }
    }
  }

  /** A walk that the critical path of an acyclic report lists, as heavy as its duration. */
  ghost predicate CriticalWalk(r: Report, duration: Id -> int, w: seq<Edge>) {
    && r.criticalPath != []
    && Walk(r.edges, r.criticalPath[0], w, r.criticalPath[|r.criticalPath| - 1])
    && WalkIds(r.criticalPath[0], w) == r.criticalPath
    && Weight(duration, r.criticalPath[0], w) == r.durationDays
  }

  /** The path ends at the greatest distance, ties decided by collation. */
  ghost predicate EndsFurthest(order: seq<Id>, distance: map<Id, int>, collation: Id -> real, path: seq<Id>) {
    path != [] && path[|path| - 1] in distance && path[|path| - 1] in order
    && var end := path[|path| - 1];
    forall id <- order :: id in distance &&
      (distance[id] < distance[end] || (distance[id] == distance[end] && collation(end) <= collation(id)))
  }

  method AnalyzeDependencies(nodes: seq<Node>, edges: seq<Edge>, collation: Id -> real) returns (r: Report)
    ensures r.edges == VisibleBlocks(ById(nodes).Keys, edges)
    ensures Elements(r.order) == ById(nodes).Keys == r.distance.Keys && NoDuplicates(r.order)
    ensures (exists x <- r.warnings :: x.Cycle?) <==> !Acyclic(r.edges)
    ensures forall x <- r.warnings :: x.Cycle? ==> x.issueIds != {} && forall id <- x.issueIds :: OnCycle(r.edges, id)
    ensures forall x: Warning :: !x.Cycle? ==> (x in r.warnings <==> x in ScheduleWarnings(ById(nodes), r.edges))
    ensures WarnsExactly(ById(nodes), r.edges, r.warnings)
    ensures Acyclic(r.edges) ==> Topological(r.edges, r.order)
    ensures Acyclic(r.edges) ==> forall id <- r.order ::
      IsLongestTo(r.edges, Duration(ById(nodes)), id, r.distance[id])
    ensures Acyclic(r.edges) && nodes != [] ==> exists w :: CriticalWalk(r, Duration(ById(nodes)), w)
    ensures Acyclic(r.edges) ==> forall a, w, b :: b in ById(nodes) && Walk(r.edges, a, w, b) ==>
      Weight(Duration(ById(nodes)), a, w) <= r.durationDays
    ensures r.criticalPath == [] <==> nodes == []
    ensures nodes == [] ==> r.durationDays == 0
    ensures nodes != [] ==> EndsFurthest(r.order, r.distance, collation, r.criticalPath)
    ensures LocallyBest(r.edges, Duration(ById(nodes)), r.order, r.distance)
  {
    var byId := ById(nodes);
    var visible := byId.Keys;
    var dependencies := VisibleBlocks(visible, edges);
    var outgoing, incoming := BuildAdjacency(dependencies);
    var postOrder, cyclic := DepthFirst(nodes, visible, dependencies, outgoing);
    var warnings := CollectWarnings(byId, dependencies, cyclic);
    CycleIsReported(byId, dependencies, cyclic, warnings);
    var order := Reversed(postOrder);
    assert Elements(order) == visible && NoDuplicates(order) && (cyclic == {} ==> Topological(dependencies, order)) by {
      ReversedElements(postOrder);
      if cyclic == {} { ReversedPostOrder(dependencies, postOrder); }
    }
    var distance, predecessor := Distances(order, byId, dependencies, incoming);
    var path, duration, w := LongestChain(order, distance, predecessor, collation, dependencies, Duration(byId));
    r := Report(dependencies, warnings, path, duration, order, distance);
    assert nodes != [] ==> nodes[0].id in Elements(order);
    assert order != [] ==> order[0] in Elements(order) && order[0] in byId;
    if cyclic == {} {
      assert path != [] ==> CriticalWalk(r, Duration(byId), w);
      DurationBounds(r, Duration(byId), visible);
    }
  }

  /** The last lines of the analyser: the furthest id, the chain behind it, its length. */
  method LongestChain(
    order: seq<Id>, distance: map<Id, int>, predecessor: map<Id, Id>, collation: Id -> real,
    ghost es: seq<Edge>, ghost duration: Id -> int)
    returns (path: seq<Id>, days: int, ghost w: seq<Edge>)
    requires distance.Keys == Elements(order)
    requires forall id <- predecessor :: predecessor[id] in distance
    ensures path == [] <==> order == []
    ensures order == [] ==> days == 0
    ensures path != [] ==> EndsFurthest(order, distance, collation, path)
    ensures Acyclic(es) && (forall id <- distance :: Explained(es, duration, distance, predecessor, id)) ==>
      (forall id <- order :: distance[id] <= days)
      && (path != [] ==> Walk(es, path[0], w, path[|path| - 1]) && WalkIds(path[0], w) == path
                         && Weight(duration, path[0], w) == days)
  {
    assert forall i :: 0 <= i < |order| ==> order[i] in Elements(order);
    var start := Furthest(order, distance, collation);
    if start.None? {
      path, days, w := [], 0, [];
    } else {
      path, w := CriticalPath(start.value, distance, predecessor, es, duration);
      days := MaxDistance(path, distance);
      FurthestIsFurthest(order, path, distance, start.value);
      assert days == distance[start.value] by {
        assert path[|path| - 1] == start.value;
      }
    }
  }

  lemma FurthestIsFurthest(order: seq<Id>, path: seq<Id>, distance: map<Id, int>, start: Id)
    requires distance.Keys == Elements(order) && start in distance
    requires forall i :: 0 <= i < |order| ==> distance[order[i]] <= distance[start]
    requires forall i :: 0 <= i < |path| ==> path[i] in distance
    ensures forall i :: 0 <= i < |path| ==> distance[path[i]] <= distance[start]
    ensures forall id <- order :: id in distance && distance[id] <= distance[start]
  {
    forall x <- distance ensures distance[x] <= distance[start] {
      assert x in order;
      var k :| 0 <= k < |order| && order[k] == x;
    }
    assert forall id <- order :: id in Elements(order);
  }

  method CollectWarnings(byId: map<Id, Node>, es: seq<Edge>, cyclic: set<Id>) returns (warnings: seq<Warning>)
    requires forall e <- es :: e.fromId in byId && e.toId in byId
    ensures warnings == CycleWarnings(cyclic) + ScheduleWarnings(byId, es)
  {
    warnings := CycleWarnings(cyclic);
    for i := 0 to |es|
      invariant warnings == CycleWarnings(cyclic) + ScheduleWarnings(byId, es[..i])
    {
      var e := es[i];
      ScheduleSnoc(byId, es, i);
      warnings := warnings + EdgeWarnings(byId[e.fromId], byId[e.toId], e.lagDays);
    }
    assert es[..|es|] == es;
  }

  lemma CycleIsReported(byId: map<Id, Node>, es: seq<Edge>, cyclic: set<Id>, warnings: seq<Warning>)
    requires forall e <- es :: e.fromId in byId && e.toId in byId
    requires warnings == CycleWarnings(cyclic) + ScheduleWarnings(byId, es)
    ensures (exists x <- warnings :: x.Cycle?) <==> cyclic != {}
    ensures forall x <- warnings :: x.Cycle? ==> x.issueIds == cyclic
    ensures forall x: Warning :: !x.Cycle? ==> (x in warnings <==> x in ScheduleWarnings(byId, es))
    ensures (forall id <- byId :: byId[id].id == id) ==> WarnsExactly(byId, es, warnings)
  {
    if forall id <- byId :: byId[id].id == id { WarningsMean(byId, es); }
    NoCycleAmongSchedule(byId, es);
    if cyclic != {} { assert warnings[0] == Cycle(cyclic); }
  }

  lemma ScheduleSnoc(byId: map<Id, Node>, es: seq<Edge>, i: nat)
    requires i < |es| && forall e <- es :: e.fromId in byId && e.toId in byId
    ensures ScheduleWarnings(byId, es[..i + 1])
      == ScheduleWarnings(byId, es[..i]) + EdgeWarnings(byId[es[i].fromId], byId[es[i].toId], es[i].lagDays)
  {
    assert es[..i + 1][..i] == es[..i];
  }

  lemma {:induction false} NoCycleAmongSchedule(byId: map<Id, Node>, es: seq<Edge>)
    requires forall e <- es :: e.fromId in byId && e.toId in byId
    ensures forall x <- ScheduleWarnings(byId, es) :: !x.Cycle?
    decreases |es|
  {
    if es != [] { NoCycleAmongSchedule(byId, es[..|es| - 1]); }
  }

  lemma DurationBounds(r: Report, duration: Id -> int, visible: set<Id>)
    requires Elements(r.order) == visible == r.distance.Keys
    requires forall id <- r.order :: IsLongestTo(r.edges, duration, id, r.distance[id])
    requires forall id <- r.order :: r.distance[id] <= r.durationDays
    ensures forall a, w, b :: b in visible && Walk(r.edges, a, w, b) ==> Weight(duration, a, w) <= r.durationDays
  {
    forall a, w: seq<Edge>, b | b in visible && Walk(r.edges, a, w, b)
      ensures Weight(duration, a, w) <= r.durationDays
    {
      assert b in r.order && IsLongestTo(r.edges, duration, b, r.distance[b]);
    }
  }

  lemma ReversedElements(order: seq<Id>)
    requires NoDuplicates(order)
    ensures Elements(Reversed(order)) == Elements(order) && NoDuplicates(Reversed(order))
  {
    var rev, n := Reversed(order), |order|;
    forall x ensures x in rev <==> x in order {
      if x in order {
        var k :| 0 <= k < n && order[k] == x;
        assert rev[n - 1 - k] == x;
      }
    }
  }

  // ---- What the schedule warnings mean

  /** An edge between two nodes that are given by id. */
  ghost predicate Joins(byId: map<Id, Node>, e: Edge, f: Id, t: Id) {
    e.fromId == f && e.toId == t && f in byId && t in byId
  }

  ghost predicate Undated(byId: map<Id, Node>, e: Edge, f: Id, t: Id) {
    Joins(byId, e, f, t) && (byId[f].dueDate == None || byId[t].dueDate == None)
  }

  /** Both ends are dated, the second before the first plus the lag in days. */
  ghost predicate TooEarly(byId: map<Id, Node>, e: Edge, f: Id, t: Id) {
    && Joins(byId, e, f, t) && byId[f].dueDate.Some? && byId[t].dueDate.Some?
    && byId[t].dueDate.value < byId[f].dueDate.value + e.lagDays * 24 * 60 * 60 * 1000
  }

  ghost predicate AcrossProjects(byId: map<Id, Node>, f: Id, t: Id) {
    f in byId && t in byId && byId[f].projectId != byId[t].projectId
  }

  ghost predicate DoneBehindOpen(byId: map<Id, Node>, e: Edge, f: Id, t: Id) {
    Joins(byId, e, f, t) && !byId[f].completed && byId[t].completed
  }

  /** Each kind of warning about two nodes is there exactly when an edge between them gives reason. */
  ghost predicate WarnsExactly(byId: map<Id, Node>, es: seq<Edge>, warnings: seq<Warning>) {
    && (forall f, t :: MissingDate(f, t) in warnings <==> exists e <- es :: Undated(byId, e, f, t))
    && (forall f, t :: ImpossibleOrder(f, t) in warnings <==>
          (exists e <- es :: TooEarly(byId, e, f, t)) && !AcrossProjects(byId, f, t))
    && (forall f, t :: CrossProjectConflict(f, t) in warnings <==>
          (exists e <- es :: TooEarly(byId, e, f, t)) && AcrossProjects(byId, f, t))
    && (forall f, t :: BlockedMilestone(f, t) in warnings <==> exists e <- es :: DoneBehindOpen(byId, e, f, t))
  }

  lemma {:induction false} WarningsMean(byId: map<Id, Node>, es: seq<Edge>)
    requires forall id <- byId :: byId[id].id == id
    requires forall e <- es :: e.fromId in byId && e.toId in byId
    ensures WarnsExactly(byId, es, ScheduleWarnings(byId, es))
    decreases |es|
  {
    if es != [] {
      var front, e := es[..|es| - 1], es[|es| - 1];
      assert forall x <- front :: x in es;
      WarningsMean(byId, front);
      EdgeWarningsMean(byId, e);
      WarningsTogether(
        byId, front, [e], ScheduleWarnings(byId, front), EdgeWarnings(byId[e.fromId], byId[e.toId], e.lagDays));
      assert es == front + [e];
    }
  }

  lemma EdgeWarningsMean(byId: map<Id, Node>, e: Edge)
    requires forall id <- byId :: byId[id].id == id
    requires e.fromId in byId && e.toId in byId
    ensures WarnsExactly(byId, [e], EdgeWarnings(byId[e.fromId], byId[e.toId], e.lagDays))
  {
    assert e in [e];
  }

  lemma WarningsTogether(
    byId: map<Id, Node>, es: seq<Edge>, more: seq<Edge>, warnings: seq<Warning>, added: seq<Warning>)
    requires WarnsExactly(byId, es, warnings) && WarnsExactly(byId, more, added)
    ensures WarnsExactly(byId, es + more, warnings + added)
  {
    assert forall e :: e in es + more <==> e in es || e in more;
    assert forall x :: x in warnings + added <==> x in warnings || x in added;
  }

  // ---- What the absence of schedule warnings means

  ghost function TotalLag(w: seq<Edge>): int {
    if w == [] then 0 else TotalLag(w[..|w| - 1]) + w[|w| - 1].lagDays
  }

  /** Both ends are dated and the later one is at least the lags after the first. */
  ghost predicate InOrder(byId: map<Id, Node>, a: Id, lagDays: int, b: Id) {
    && a in byId && b in byId && byId[a].dueDate.Some? && byId[b].dueDate.Some?
    && byId[b].dueDate.value >= byId[a].dueDate.value + lagDays * DAY
  }

  ghost predicate PathsInOrder(byId: map<Id, Node>, es: seq<Edge>) {
    forall a, w, b :: w != [] && Walk(es, a, w, b) ==> InOrder(byId, a, TotalLag(w), b)
  }

  predicate IsScheduleConflict(x: Warning) {
    x.MissingDate? || x.ImpossibleOrder? || x.CrossProjectConflict?
  }

  ghost predicate Conflicted(warnings: seq<Warning>) {
    exists x <- warnings :: IsScheduleConflict(x)
  }

  ghost predicate Disordered(byId: map<Id, Node>, es: seq<Edge>) {
    exists e <- es :: !InOrder(byId, e.fromId, e.lagDays, e.toId)
  }

  lemma OneEdgeConflict(byId: map<Id, Node>, e: Edge)
    requires forall id <- byId :: byId[id].id == id
    requires e.fromId in byId && e.toId in byId
    ensures Conflicted(EdgeWarnings(byId[e.fromId], byId[e.toId], e.lagDays))
      <==> !InOrder(byId, e.fromId, e.lagDays, e.toId)
  {
    var own := EdgeWarnings(byId[e.fromId], byId[e.toId], e.lagDays);
    if !InOrder(byId, e.fromId, e.lagDays, e.toId) { assert IsScheduleConflict(own[0]); }
  }

  lemma {:induction false} ConflictFromEdge(byId: map<Id, Node>, es: seq<Edge>)
    requires forall id <- byId :: byId[id].id == id
    requires forall e <- es :: e.fromId in byId && e.toId in byId
    ensures Conflicted(ScheduleWarnings(byId, es)) <==> Disordered(byId, es)
    decreases |es|
  {
    if es != [] {
      var n := |es| - 1;
      var front, e := es[..n], es[n];
      assert forall x <- front :: x in es;
      ConflictFromEdge(byId, front);
      OneEdgeConflict(byId, e);
      ConflictSnoc(ScheduleWarnings(byId, front), EdgeWarnings(byId[e.fromId], byId[e.toId], e.lagDays));
      DisorderedSnoc(byId, front, e);
      assert es == front + [e];
    }
  }

  lemma ConflictSnoc(front: seq<Warning>, own: seq<Warning>)
    ensures Conflicted(front + own) <==> Conflicted(front) || Conflicted(own)
  {}

  lemma DisorderedSnoc(byId: map<Id, Node>, front: seq<Edge>, e: Edge)
    ensures Disordered(byId, front + [e])
      <==> Disordered(byId, front) || !InOrder(byId, e.fromId, e.lagDays, e.toId)
  {
    assert e in front + [e] && forall x <- front :: x in front + [e];
  }

  lemma {:induction false} LagsAlongWalk(byId: map<Id, Node>, es: seq<Edge>, a: Id, w: seq<Edge>, b: Id)
    requires forall e <- es :: InOrder(byId, e.fromId, e.lagDays, e.toId)
    requires w != [] && Walk(es, a, w, b)
    ensures InOrder(byId, a, TotalLag(w), b)
    decreases |w|
  {
    var last, front := w[|w| - 1], w[..|w| - 1];
    if front != [] {
      LagsAlongWalk(byId, es, a, front, last.fromId);
    }
  }

  /** The report is free of schedule conflicts exactly when every dependency path,
      however long, is dated at both ends with the last due date at least the sum of
      its lags after the first. */
  lemma NoConflictIffPathsInOrder(byId: map<Id, Node>, es: seq<Edge>)
    requires forall id <- byId :: byId[id].id == id
    requires forall e <- es :: e.fromId in byId && e.toId in byId
    ensures (forall x <- ScheduleWarnings(byId, es) :: !IsScheduleConflict(x))
      <==> PathsInOrder(byId, es)
  {
    ConflictFromEdge(byId, es);
    if forall e <- es :: InOrder(byId, e.fromId, e.lagDays, e.toId) {
      forall a, w: seq<Edge>, b | w != [] && Walk(es, a, w, b) ensures InOrder(byId, a, TotalLag(w), b) {
        LagsAlongWalk(byId, es, a, w, b);
      }
    } else {
      var e :| e in es && !InOrder(byId, e.fromId, e.lagDays, e.toId);
      var w := [e];
      assert w[..0] == [];
      assert TotalLag(w) == e.lagDays;
      assert w != [] && Walk(es, e.fromId, w, e.toId) && !InOrder(byId, e.fromId, TotalLag(w), e.toId);
    }
  }
}
