/** The guard on new dependency links, and every run of link requests. */
module IssueLinks {
  import opened Wrappers
  import opened Graph
  import DependencyAnalysis

  /** True exactly when an edge from `fromId` to `toId` would close a cycle. */
  method IntroducesCycle(edges: seq<Edge>, fromId: Id, toId: Id) returns (r: bool)
    ensures r <==> fromId == toId || Reaches(edges, toId, fromId)
  {
    if fromId == toId {
      return true;
    }
    var outgoing := BuildTargets(edges);
    var seen: set<Id>, queue := {}, [toId];
    ghost var universe := {toId} + set e <- edges :: e.toId;
    assert Walk(edges, toId, [], toId);
    while queue != []
      invariant seen <= universe && (forall id <- queue :: id in universe)
      invariant fromId !in seen && (toId in seen || toId in queue)
      invariant forall id <- queue :: Reaches(edges, toId, id)
      invariant forall e <- edges :: e.fromId in seen ==> e.toId in seen || e.toId in queue
      decreases universe - seen, |queue|
    {
      var id := queue[0];
      ghost var rest := queue[1..];
      assert forall x :: x in queue <==> x == id || x in rest;
      queue := queue[1..];
      if id == fromId {
        return true;
      }
      if id !in seen {
        seen := seen + {id};
        var next := Targets(outgoing, id);
        assert TargetsOf(edges, id, next);
        assert forall x <- next :: Reaches(edges, toId, x) by {
          TargetsReached(edges, next, toId, id);
        }
        queue := queue + next;
      }
    }
    if Reaches(edges, toId, fromId) {
      var w :| Walk(edges, toId, w, fromId);
      ClosedKeepsWalks(edges, seen, toId, w, fromId);
    }
    return false;
  }

  function Targets(m: map<Id, seq<Id>>, id: Id): seq<Id> {
    if id in m then m[id] else []
  }

  ghost predicate TargetsOf(edges: seq<Edge>, id: Id, bucket: seq<Id>) {
    forall x :: x in bucket <==> exists e :: e in edges && e.fromId == id && e.toId == x
  }

  method BuildTargets(edges: seq<Edge>) returns (m: map<Id, seq<Id>>)
    ensures forall id :: TargetsOf(edges, id, Targets(m, id))
  {
    m := map[];
    for i := 0 to |edges|
      invariant forall id :: TargetsOf(edges[..i], id, Targets(m, id))
    {
      var e := edges[i];
      ghost var before := m;
      m := m[e.fromId := Targets(m, e.fromId) + [e.toId]];
      assert edges[..i + 1] == edges[..i] + [e];
      forall id ensures TargetsOf(edges[..i + 1], id, Targets(m, id)) {
        assert TargetsOf(edges[..i], id, Targets(before, id));
        assert e in edges[..i + 1];
      }
    }
    assert edges[..|edges|] == edges;
  }

  lemma TargetsReached(edges: seq<Edge>, bucket: seq<Id>, a: Id, id: Id)
    requires TargetsOf(edges, id, bucket) && Reaches(edges, a, id)
    ensures forall x <- bucket :: Reaches(edges, a, x)
  {
    var w :| Walk(edges, a, w, id);
    forall x <- bucket ensures Reaches(edges, a, x) {
      var e :| e in edges && e.fromId == id && e.toId == x;
      WalkStep(edges, a, w, e);
    }
  }

  // ---- Adding one edge

  /** A walk over one more edge either does without it or splits around it. */
  lemma {:induction false} WalkWithNewEdge(es: seq<Edge>, e: Edge, a: Id, w: seq<Edge>, b: Id)
    requires Walk(es + [e], a, w, b)
    ensures Walk(es, a, w, b) || (Reaches(es, a, e.fromId) && Reaches(es, e.toId, b))
    decreases |w|
  {
    if w != [] {
      var front, last := w[..|w| - 1], w[|w| - 1];
      WalkWithNewEdge(es, e, a, front, last.fromId);
      if Walk(es, a, front, last.fromId) {
        if last !in es {
          assert Walk(es, e.toId, [], b);
        }
      } else if last in es {
        var x :| Walk(es, e.toId, x, last.fromId);
        WalkStep(es, e.toId, x, last);
      } else {
        assert Walk(es, e.toId, [], b);
      }
    }
  }

  /** In an acyclic graph the guard refuses an edge exactly when it would close a cycle. */
  lemma NewEdgeAcyclicIff(es: seq<Edge>, e: Edge)
    requires Acyclic(es)
    ensures Acyclic(es + [e]) <==> !(e.fromId == e.toId || Reaches(es, e.toId, e.fromId))
  {
    var more := es + [e];
    if e.fromId == e.toId || Reaches(es, e.toId, e.fromId) {
      var w: seq<Edge> := [];
      if e.fromId != e.toId {
        w :| Walk(es, e.toId, w, e.fromId);
        WalkMonotone(es, more, e.toId, w, e.fromId);
      }
      WalkStep(more, e.toId, w, e);
      assert w + [e] != [] && OnCycle(more, e.toId);
    } else if !Acyclic(more) {
      var v :| OnCycle(more, v);
      var w :| w != [] && Walk(more, v, w, v);
      WalkWithNewEdge(es, e, v, w, v);
      if Walk(es, v, w, v) {
        assert OnCycle(es, v);
      } else {
        var x :| Walk(es, e.toId, x, v);
        var y :| Walk(es, v, y, e.fromId);
        WalkConcat(es, e.toId, x, v, y, e.fromId);
      }
    }
  }

  lemma FewerEdgesAcyclic(es: seq<Edge>, more: seq<Edge>)
    requires Acyclic(more) && forall e <- es :: e in more
    ensures Acyclic(es)
  {
    forall v ensures !OnCycle(es, v) {
      if OnCycle(es, v) {
        var w :| w != [] && Walk(es, v, w, v);
        WalkMonotone(es, more, v, w, v);
        assert OnCycle(more, v);
      }
    }
  }

  // ---- The link table

  datatype Issue = Issue(workspace: Id, archived: bool)

  datatype Link = Link(id: Id, outward: Id, inward: Id, kind: string, lagDays: int, version: int)

  const KINDS := ["blocks", "relates", "duplicates"]

  predicate ValidInput(kind: string, lagDays: int) {
    kind in KINDS && -365 <= lagDays <= 365
  }

  function EdgeOf(l: Link): Edge {
    Edge(l.outward, l.inward, l.kind, l.lagDays)
  }

  /** The links of kind "blocks", as edges. */
  function Blocks(links: seq<Link>): (es: seq<Edge>)
    ensures forall e :: e in es <==> exists l <- links :: l.kind == "blocks" && e == EdgeOf(l)
  {
    if links == [] then []
    else
      var l := links[|links| - 1];
      var front := Blocks(links[..|links| - 1]);
      assert forall x <- links :: x in links[..|links| - 1] || x == l;
      if l.kind == "blocks" then front + [EdgeOf(l)] else front
  }

  /** What the POST guard reads: the blocking links whose outward issue is in the workspace. */
  function BlocksOf(issues: map<Id, Issue>, links: seq<Link>, workspace: Id): (es: seq<Edge>)
    ensures forall e :: e in es <==> e in Blocks(links) && e.fromId in issues && issues[e.fromId].workspace == workspace
  {
    InWorkspace(issues, Blocks(links), workspace)
  }

  function InWorkspace(issues: map<Id, Issue>, all: seq<Edge>, workspace: Id): (es: seq<Edge>)
    ensures forall e :: e in es <==> e in all && e.fromId in issues && issues[e.fromId].workspace == workspace
  {
    if all == [] then []
    else
      var rest := InWorkspace(issues, all[1..], workspace);
      if all[0].fromId in issues && issues[all[0].fromId].workspace == workspace then [all[0]] + rest else rest
  }

  predicate Visible(issues: map<Id, Issue>, workspace: Id, id: Id) {
    id in issues && issues[id].workspace == workspace && !issues[id].archived
  }

  predicate Taken(links: seq<Link>, outward: Id, inward: Id, kind: string) {
    exists l <- links :: l.outward == outward && l.inward == inward && l.kind == kind
  }

  datatype Request =
    | Post(workspace: Id, permitted: bool, source: Id, target: Id, kind: string, lagDays: Option<int>, newId: Id)
    | Patch(
        workspace: Id, permitted: bool, source: Id, linkId: Id, version: int,
        newKind: Option<string>, lagDays: Option<int>)
    | Delete(workspace: Id, permitted: bool, source: Id, linkId: Id, version: int)

  ghost predicate ClosesCycle(issues: map<Id, Issue>, links: seq<Link>, workspace: Id, outward: Id, inward: Id) {
    outward == inward || Reaches(BlocksOf(issues, links, workspace), inward, outward)
  }

  /** The HTTP status of a POST, in the order the route checks. */
  ghost function PostStatus(issues: map<Id, Issue>, links: seq<Link>, r: Request): int
    requires r.Post?
  {
    if !Visible(issues, r.workspace, r.source) || !r.permitted then 404
    else if !ValidInput(r.kind, r.lagDays.GetOr(0)) then 400
    else if !Visible(issues, r.workspace, r.target) then 404
    else if r.kind == "blocks" && ClosesCycle(issues, links, r.workspace, r.source, r.target) then 409
    else if Taken(links, r.source, r.target, r.kind) then 400
    else 201
  }

  /** The row a PATCH or DELETE may touch: the link leaves the source issue named in the path. */
  predicate Addressed(issues: map<Id, Issue>, links: seq<Link>, workspace: Id, permitted: bool, source: Id, i: int) {
    && 0 <= i < |links| && Visible(issues, workspace, source) && permitted && links[i].outward == source
  }

  function Position(links: seq<Link>, id: Id): (i: int)
    ensures -1 <= i < |links|
    ensures 0 <= i ==> links[i].id == id
    ensures i == -1 <==> forall l <- links :: l.id != id
  {
    if links == [] then -1
    else if links[|links| - 1].id == id then |links| - 1
    else
      assert forall l <- links :: l in links[..|links| - 1] || l == links[|links| - 1];
      Position(links[..|links| - 1], id)
  }

  function Patched(l: Link, r: Request): Link
    requires r.Patch?
  {
    l.(kind := r.newKind.GetOr(l.kind), lagDays := r.lagDays.GetOr(0), version := l.version + 1)
  }

  function PatchStatus(issues: map<Id, Issue>, links: seq<Link>, r: Request): int
    requires r.Patch?
  {
    var i := Position(links, r.linkId);
    if !Addressed(issues, links, r.workspace, r.permitted, r.source, i) then 404
    else if r.version != links[i].version then 409
    else
      var l := Patched(links[i], r);
      if !ValidInput(l.kind, l.lagDays) then 400
      else if l.kind != links[i].kind && Taken(links, l.outward, l.inward, l.kind) then 400
      else 200
  }

  function DeleteStatus(issues: map<Id, Issue>, links: seq<Link>, r: Request): int
    requires r.Delete?
  {
    var i := Position(links, r.linkId);
    if !Addressed(issues, links, r.workspace, r.permitted, r.source, i) then 404
    else if r.version != links[i].version then 409
    else 204
  }

  /** The table after one request; a refused request changes nothing. */
  ghost function Next(issues: map<Id, Issue>, links: seq<Link>, r: Request): seq<Link> {
    match r
    case Post(_, _, source, target, kind, lagDays, newId) =>
      if PostStatus(issues, links, r) == 201
      then links + [Link(newId, source, target, kind, lagDays.GetOr(0), 1)]
      else links
    case Patch(_, _, _, linkId, _, _, _) =>
      var i := Position(links, linkId);
      if PatchStatus(issues, links, r) == 200 then links[i := Patched(links[i], r)] else links
    case Delete(_, _, _, linkId, _) =>
      var i := Position(links, linkId);
      if DeleteStatus(issues, links, r) == 204 then links[..i] + links[i + 1..] else links
  }

  ghost function Run(issues: map<Id, Issue>, links: seq<Link>, rs: seq<Request>): seq<Link>
    decreases |rs|
  {
    if rs == [] then links else Run(issues, Next(issues, links, rs[0]), rs[1..])
  }

  /** The stored rows, changed in place by the three routes. */
  class LinkTable {
    var issues: map<Id, Issue>
    var links: seq<Link>

    constructor (issues: map<Id, Issue>)
      ensures this.issues == issues && links == []
    {
      this.issues, links := issues, [];
    }

    method Post(r: Request) returns (status: int)
      requires r.Post?
      modifies this`links
      ensures status == PostStatus(issues, old(links), r)
      ensures links == Next(issues, old(links), r)
    {
      if !Visible(issues, r.workspace, r.source) || !r.permitted { return 404; }
      if !ValidInput(r.kind, r.lagDays.GetOr(0)) { return 400; }
      if !Visible(issues, r.workspace, r.target) { return 404; }
      if r.kind == "blocks" {
        var closes := IntroducesCycle(BlocksOf(issues, links, r.workspace), r.source, r.target);
        if closes { return 409; }
      }
      if Taken(links, r.source, r.target, r.kind) { return 400; }
      links := links + [Link(r.newId, r.source, r.target, r.kind, r.lagDays.GetOr(0), 1)];
      status := 201;
    }

    method Patch(r: Request) returns (status: int)
      requires r.Patch?
      modifies this`links
      ensures status == PatchStatus(issues, old(links), r)
      ensures links == Next(issues, old(links), r)
      ensures status != 200 ==> links == old(links)
      ensures status == 200 ==> OnlyChanged(old(links), links, r.linkId)
      ensures Sound(issues, old(links)) ==> (Sound(issues, links) <==> !ClosesOne(issues, old(links), r))
    {
      if Sound(issues, links) { RequestKeepsSoundIff(issues, links, r); }
      var i := Position(links, r.linkId);
      if !Addressed(issues, links, r.workspace, r.permitted, r.source, i) { return 404; }
      var link := links[i];
      if r.version != link.version { return 409; }
      var kind, lagDays := r.newKind.GetOr(link.kind), r.lagDays.GetOr(0);
      if !ValidInput(kind, lagDays) { return 400; }
      if kind != link.kind && Taken(links, link.outward, link.inward, kind) { return 400; }
      links := links[i := link.(kind := kind, lagDays := lagDays, version := link.version + 1)];
      status := 200;
    }

    method Delete(r: Request) returns (status: int)
      requires r.Delete?
      modifies this`links
      ensures status == DeleteStatus(issues, old(links), r)
      ensures links == Next(issues, old(links), r)
      ensures status != 204 ==> links == old(links)
      ensures status == 204 ==> |links| == |old(links)| - 1
      ensures forall l <- links :: l in old(links)
      ensures forall l <- old(links) :: l.id != r.linkId ==> l in links
      ensures Sound(issues, old(links)) ==> Sound(issues, links)
    {
      if Sound(issues, links) { DeleteKeepsSound(issues, links, r); }
      var i := Position(links, r.linkId);
      if !Addressed(issues, links, r.workspace, r.permitted, r.source, i) { return 404; }
      if r.version != links[i].version { return 409; }
      links := links[..i] + links[i + 1..];
      status := 204;
    }
  }

  // ---- What every run keeps

  /** One row differs, and only in its kind, its lag and its version, which is one greater. */
  ghost predicate OnlyChanged(before: seq<Link>, after: seq<Link>, id: Id) {
    && |after| == |before|
    && forall j :: 0 <= j < |before| ==>
      after[j] == before[j]
      || (before[j].id == id && after[j].version == before[j].version + 1
          && after[j] == before[j].(kind := after[j].kind, lagDays := after[j].lagDays, version := after[j].version))
  }

  /** Both ends of every link are issues of one workspace. */
  ghost predicate Tenanted(issues: map<Id, Issue>, links: seq<Link>) {
    forall l <- links :: l.outward in issues && l.inward in issues
      && issues[l.outward].workspace == issues[l.inward].workspace
  }

  ghost predicate Sound(issues: map<Id, Issue>, links: seq<Link>) {
    Tenanted(issues, links) && Acyclic(Blocks(links))
  }

  /** A PATCH that makes a blocking link out of one that was not. */
  predicate TurnsBlocking(links: seq<Link>, r: Request) {
    r.Patch? && var i := Position(links, r.linkId);
    i >= 0 && links[i].kind != "blocks" && r.newKind == Some("blocks")
  }

  /** Walks from an issue of the workspace stay inside it. */
  lemma {:induction false} WalkStaysInWorkspace(
    issues: map<Id, Issue>, links: seq<Link>, workspace: Id, a: Id, w: seq<Edge>, b: Id)
    requires Tenanted(issues, links) && a in issues && issues[a].workspace == workspace
    requires Walk(Blocks(links), a, w, b)
    ensures Walk(BlocksOf(issues, links, workspace), a, w, b) && b in issues && issues[b].workspace == workspace
    decreases |w|
  {
    if w != [] {
      WalkStaysInWorkspace(issues, links, workspace, a, w[..|w| - 1], w[|w| - 1].fromId);
    }
  }

  /** The workspace-local guard decides reachability in the whole table. */
  lemma LocalGuardIsGlobal(issues: map<Id, Issue>, links: seq<Link>, workspace: Id, outward: Id, inward: Id)
    requires Tenanted(issues, links) && inward in issues && issues[inward].workspace == workspace
    ensures ClosesCycle(issues, links, workspace, outward, inward)
      <==> outward == inward || Reaches(Blocks(links), inward, outward)
  {
    var scoped := BlocksOf(issues, links, workspace);
    if Reaches(Blocks(links), inward, outward) {
      var w :| Walk(Blocks(links), inward, w, outward);
      WalkStaysInWorkspace(issues, links, workspace, inward, w, outward);
    }
    if Reaches(scoped, inward, outward) {
      var w :| Walk(scoped, inward, w, outward);
      WalkMonotone(scoped, Blocks(links), inward, w, outward);
    }
  }

  lemma PostKeepsSound(issues: map<Id, Issue>, links: seq<Link>, r: Request)
    requires Sound(issues, links) && r.Post?
    ensures Sound(issues, Next(issues, links, r))
  {
    if PostStatus(issues, links, r) == 201 {
      var l := Link(r.newId, r.source, r.target, r.kind, r.lagDays.GetOr(0), 1);
      assert (links + [l])[..|links|] == links;
      if r.kind == "blocks" {
        LocalGuardIsGlobal(issues, links, r.workspace, r.source, r.target);
        NewEdgeAcyclicIff(Blocks(links), EdgeOf(l));
      }
    }
  }

  lemma DeleteKeepsSound(issues: map<Id, Issue>, links: seq<Link>, r: Request)
    requires Sound(issues, links) && r.Delete?
    ensures Sound(issues, Next(issues, links, r))
  {
    var after := Next(issues, links, r);
    assert forall l <- after :: l in links;
    FewerEdgesAcyclic(Blocks(after), Blocks(links));
  }

  ghost predicate OtherBlock(links: seq<Link>, i: nat, e: Edge) {
    exists j :: 0 <= j < |links| && j != i && links[j].kind == "blocks" && e == EdgeOf(links[j])
  }

  /** The blocking edges after a PATCH are the others, plus the link itself if it now blocks. */
  lemma {:induction false} BlocksAfterUpdate(links: seq<Link>, i: nat, l: Link)
    requires i < |links|
    ensures forall e :: e in Blocks(links[i := l]) <==>
      (l.kind == "blocks" && e == EdgeOf(l)) || OtherBlock(links, i, e)
  {
    var after := links[i := l];
    forall e
      ensures e in Blocks(after) <==> (l.kind == "blocks" && e == EdgeOf(l)) || OtherBlock(links, i, e)
    {
      if e in Blocks(after) {
        var x :| x in after && x.kind == "blocks" && e == EdgeOf(x);
        var j :| 0 <= j < |after| && after[j] == x;
        assert j != i ==> links[j] == x;
      }
      if l.kind == "blocks" && e == EdgeOf(l) {
        assert after[i] == l && l in after;
      }
      if j :| 0 <= j < |links| && j != i && links[j].kind == "blocks" && e == EdgeOf(links[j]) {
        assert after[j] == links[j] && links[j] in after;
      }
    }
  }

  /** Edges that differ only in their lags have the same cycles. */
  lemma {:induction false} LagsDoNotMatter(
    es: seq<Edge>, more: seq<Edge>, a: Id, w: seq<Edge>, b: Id)
    returns (x: seq<Edge>)
    requires forall e <- es :: exists e' <- more :: e'.fromId == e.fromId && e'.toId == e.toId
    requires Walk(es, a, w, b)
    ensures Walk(more, a, x, b) && |x| == |w|
    decreases |w|
  {
    if w == [] {
      x := [];
    } else {
      var last := w[|w| - 1];
      x := LagsDoNotMatter(es, more, a, w[..|w| - 1], last.fromId);
      var e' :| e' in more && e'.fromId == last.fromId && e'.toId == last.toId;
      WalkStep(more, a, x, e');
      x := x + [e'];
    }
  }

  lemma SameEndsAcyclic(es: seq<Edge>, more: seq<Edge>)
    requires Acyclic(more)
    requires forall e <- es :: exists e' <- more :: e'.fromId == e.fromId && e'.toId == e.toId
    ensures Acyclic(es)
  {
    forall v ensures !OnCycle(es, v) {
      if OnCycle(es, v) { SameEndsCycle(es, more, v); }
    }
  }

  lemma SameEndsCycle(es: seq<Edge>, more: seq<Edge>, v: Id)
    requires OnCycle(es, v)
    requires forall e <- es :: exists e' <- more :: e'.fromId == e.fromId && e'.toId == e.toId
    ensures OnCycle(more, v)
  {
    var w :| w != [] && Walk(es, v, w, v);
    var x := LagsDoNotMatter(es, more, v, w, v);
    assert x != [];
  }

  /** The PATCH route has no cycle check.  An accepted PATCH keeps the graph acyclic
      exactly when it does not make a blocking link out of another kind, or the guard
      that POST applies would have let that link through. */
  lemma PatchKeepsSoundIff(issues: map<Id, Issue>, links: seq<Link>, r: Request)
    requires Sound(issues, links) && r.Patch? && PatchStatus(issues, links, r) == 200
    ensures Sound(issues, Next(issues, links, r)) <==>
      !TurnsBlocking(links, r)
      || var l := links[Position(links, r.linkId)]; !ClosesCycle(issues, links, r.workspace, l.outward, l.inward)
  {
    var i := Position(links, r.linkId);
    var old', l := links[i], Patched(links[i], r);
    var before, after := Blocks(links), Blocks(Next(issues, links, r));
    assert old' in links;
    forall x <- Next(issues, links, r)
      ensures x.outward in issues && x.inward in issues && issues[x.outward].workspace == issues[x.inward].workspace
    {
      var j :| 0 <= j < |links| && links[i := l][j] == x;
      assert links[j] in links && links[j].outward == x.outward && links[j].inward == x.inward;
    }
    BlocksAfterUpdate(links, i, l);
    if TurnsBlocking(links, r) {
      var whole := before + [EdgeOf(l)];
      forall e ensures e in after <==> e in whole {
        if e in before {
          var x :| x in links && x.kind == "blocks" && e == EdgeOf(x);
          var j :| 0 <= j < |links| && links[j] == x;
          assert j != i && OtherBlock(links, i, e);
        }
        if OtherBlock(links, i, e) {
          var j :| 0 <= j < |links| && j != i && links[j].kind == "blocks" && e == EdgeOf(links[j]);
          assert links[j] in links;
        }
      }
      LocalGuardIsGlobal(issues, links, r.workspace, l.outward, l.inward);
      NewEdgeAcyclicIff(before, EdgeOf(l));
      if Acyclic(whole) { FewerEdgesAcyclic(after, whole); }
      if Acyclic(after) { FewerEdgesAcyclic(whole, after); }
    } else {
      forall e <- after ensures exists e' <- before :: e'.fromId == e.fromId && e'.toId == e.toId {
        if l.kind == "blocks" && e == EdgeOf(l) {
          assert EdgeOf(old') in before;
        } else {
          var j :| 0 <= j < |links| && j != i && links[j].kind == "blocks" && e == EdgeOf(links[j]);
          assert links[j] in links;
        }
      }
      SameEndsAcyclic(after, before);
    }
  }

  /** Two related issues, the first already blocking the second: turning the relation
      back from the second into a block is accepted and closes a cycle. */
  lemma PatchCanCloseCycle() returns (issues: map<Id, Issue>, links: seq<Link>, r: Request)
    ensures Sound(issues, links) && r.Patch? && PatchStatus(issues, links, r) == 200
    ensures !Sound(issues, Next(issues, links, r))
  {
    issues := map[1 := Issue(0, false), 2 := Issue(0, false)];
    var ab, ba := Link(10, 1, 2, "blocks", 0, 1), Link(11, 2, 1, "relates", 0, 1);
    links := [ab, ba];
    r := Patch(0, true, 2, 11, 1, Some("blocks"), None);
    assert Position(links, 11) == 1;
    assert PatchStatus(issues, links, r) == 200;
    assert links[..1] == [ab] && links[..1][..0] == [];
    assert Blocks(links[..1]) == [EdgeOf(ab)] && Blocks(links) == [EdgeOf(ab)];
    RankedIsAcyclic(Blocks(links), map[1 := 1, 2 := 2]);
    assert Sound(issues, links);
    PatchKeepsSoundIff(issues, links, r);
    WalkStep([EdgeOf(ab)], 1, [], EdgeOf(ab));
    assert EdgeOf(ab) in BlocksOf(issues, links, 0);
    WalkStep(BlocksOf(issues, links, 0), 1, [], EdgeOf(ab));
    assert ClosesCycle(issues, links, 0, 2, 1);
  }

  /** An accepted PATCH that makes a blocking link which the guard of POST would have refused. */
  ghost predicate ClosesOne(issues: map<Id, Issue>, links: seq<Link>, r: Request) {
    && r.Patch? && PatchStatus(issues, links, r) == 200 && TurnsBlocking(links, r)
    && var l := links[Position(links, r.linkId)]; ClosesCycle(issues, links, r.workspace, l.outward, l.inward)
  }

  lemma RequestKeepsSoundIff(issues: map<Id, Issue>, links: seq<Link>, r: Request)
    requires Sound(issues, links)
    ensures Sound(issues, Next(issues, links, r)) <==> !ClosesOne(issues, links, r)
  {
    if r.Post? { PostKeepsSound(issues, links, r); }
    else if r.Delete? { DeleteKeepsSound(issues, links, r); }
    else if PatchStatus(issues, links, r) == 200 { PatchKeepsSoundIff(issues, links, r); }
  }

  ghost predicate SoundThroughout(issues: map<Id, Issue>, links: seq<Link>, rs: seq<Request>)
    decreases |rs|
  {
    Sound(issues, links) && (rs == [] || SoundThroughout(issues, Next(issues, links, rs[0]), rs[1..]))
  }

  ghost predicate NoneCloses(issues: map<Id, Issue>, links: seq<Link>, rs: seq<Request>)
    decreases |rs|
  {
    rs == [] || (!ClosesOne(issues, links, rs[0]) && NoneCloses(issues, Next(issues, links, rs[0]), rs[1..]))
  }

  /** Over any run of link requests the blocking graph stays acyclic all the way exactly when no accepted
      PATCH closes a cycle. */
  lemma {:induction false} RunKeepsSoundIff(issues: map<Id, Issue>, links: seq<Link>, rs: seq<Request>)
    requires Sound(issues, links)
    ensures SoundThroughout(issues, links, rs) <==> NoneCloses(issues, links, rs)
    ensures NoneCloses(issues, links, rs) ==> Sound(issues, Run(issues, links, rs))
    decreases |rs|
  {
    if rs != [] {
      RequestKeepsSoundIff(issues, links, rs[0]);
      if !ClosesOne(issues, links, rs[0]) { RunKeepsSoundIff(issues, Next(issues, links, rs[0]), rs[1..]); }
      else { NotSoundNow(issues, Next(issues, links, rs[0]), rs[1..]); }
    }
  }

  lemma NotSoundNow(issues: map<Id, Issue>, links: seq<Link>, rs: seq<Request>)
    requires !Sound(issues, links)
    ensures !SoundThroughout(issues, links, rs)
  {}

  /** While it is acyclic, no analysis of any part of the links reports CYCLE. */
  lemma SoundLinksShowNoCycle(issues: map<Id, Issue>, links: seq<Link>, visible: set<Id>, edges: seq<Edge>)
    requires Sound(issues, links) && forall e <- edges :: exists l <- links :: e == EdgeOf(l)
    ensures Acyclic(DependencyAnalysis.VisibleBlocks(visible, edges))
  {
    FewerEdgesAcyclic(DependencyAnalysis.VisibleBlocks(visible, edges), Blocks(links));
  }

  // ---- Several new edges at once

  ghost predicate Passes(es: seq<Edge>, more: seq<Edge>, a: Id, b: Id) {
    exists e :: e in more && !Linked(es, e.fromId, e.toId) && Reaches(more, a, e.fromId) && Reaches(more, e.toId, b)
  }

  lemma ReachesOn(es: seq<Edge>, a: Id, b: Id, e: Edge)
    requires Reaches(es, a, b) && e in es && e.fromId == b
    ensures Reaches(es, a, e.toId)
  {
    var w :| Walk(es, a, w, b);
    WalkStep(es, a, w, e);
  }

  /** A walk keeps to pairs that were linked before, or passes a pair that was not. */
  lemma {:induction false} KeepsOrPasses(es: seq<Edge>, more: seq<Edge>, a: Id, w: seq<Edge>, b: Id)
    returns (x: seq<Edge>)
    requires Walk(more, a, w, b)
    ensures (Walk(es, a, x, b) && |x| == |w|) || Passes(es, more, a, b)
    decreases |w|
  {
    x := [];
    if w != [] {
      var front, last := w[..|w| - 1], w[|w| - 1];
      var y := KeepsOrPasses(es, more, a, front, last.fromId);
      if Passes(es, more, a, last.fromId) {
        var e :| e in more && !Linked(es, e.fromId, e.toId) && Reaches(more, a, e.fromId)
          && Reaches(more, e.toId, last.fromId);
        ReachesOn(more, e.toId, last.fromId, last);
      } else if Linked(es, last.fromId, b) {
        var e :| e in es && e.fromId == last.fromId && e.toId == b;
        WalkStep(es, a, y, e);
        x := y + [e];
      } else {
        assert Reaches(more, a, last.fromId);
        assert Walk(more, b, [], b);
      }
    }
  }

  lemma ReachesConcat(es: seq<Edge>, a: Id, b: Id, c: Id)
    requires Reaches(es, a, b) && Reaches(es, b, c)
    ensures Reaches(es, a, c)
  {
    var x :| Walk(es, a, x, b);
    var y :| Walk(es, b, y, c);
    WalkConcat(es, a, x, b, y, c);
  }

  lemma CycleThrough(es: seq<Edge>, e: Edge)
    requires e in es && Reaches(es, e.toId, e.fromId)
    ensures OnCycle(es, e.toId)
  {
    var w :| Walk(es, e.toId, w, e.fromId);
    WalkStep(es, e.toId, w, e);
    assert w + [e] != [];
  }

  /** Growing an acyclic graph keeps it acyclic exactly when no newly linked pair is reachable backwards. */
  lemma GrownAcyclicIff(es: seq<Edge>, more: seq<Edge>)
    requires Acyclic(es)
    ensures Acyclic(more) <==>
      forall e <- more :: !Linked(es, e.fromId, e.toId) ==> !Reaches(more, e.toId, e.fromId)
  {
    if Acyclic(more) {
      forall e <- more ensures !Reaches(more, e.toId, e.fromId) {
        if Reaches(more, e.toId, e.fromId) { CycleThrough(more, e); }
      }
    } else {
      var v :| OnCycle(more, v);
      NewPairOnCycle(es, more, v);
    }
  }

  lemma ClosedWalkCycles(es: seq<Edge>, v: Id, w: seq<Edge>)
    requires w != [] && Walk(es, v, w, v)
    ensures OnCycle(es, v)
  {}

  lemma NewPairOnCycle(es: seq<Edge>, more: seq<Edge>, v: Id)
    requires Acyclic(es) && OnCycle(more, v)
    ensures exists e <- more :: !Linked(es, e.fromId, e.toId) && Reaches(more, e.toId, e.fromId)
  {
    var w :| w != [] && Walk(more, v, w, v);
    var x := KeepsOrPasses(es, more, v, w, v);
    if Walk(es, v, x, v) && |x| == |w| { ClosedWalkCycles(es, v, x); }
    var e :| e in more && !Linked(es, e.fromId, e.toId) && Reaches(more, v, e.fromId) && Reaches(more, e.toId, v);
    ReachesConcat(more, e.toId, v, e.fromId);
  }
}
