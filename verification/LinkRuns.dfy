/** What runs do to the links between issues, whoever writes them: requests, publications, imported files,
    and the deletion of issues. */
module LinkRuns {
  import opened Publications
  import opened Wrappers
  import Graph
  import L = IssueLinks
  import S = Scenarios

  type Id = Graph.Id

  datatype State = State(issues: map<Id, L.Issue>, links: seq<L.Link>)

  /** A publication appears by its valid changes. */
  datatype Step =
    | Ask(request: L.Request)
    | Publish(valid: seq<S.Change>, newId: Id)
    | Import(more: seq<L.Link>)
    | Purge(ids: set<Id>)
    | Store(id: Id, issue: L.Issue)

  predicate SameWorkspace(issues: map<Id, L.Issue>, a: Id, b: Id) {
    a in issues && b in issues && issues[a].workspace == issues[b].workspace
  }

  /** A file only brings links of one kind, between issues it brings itself. */
  predicate Importable(issues: map<Id, L.Issue>, more: seq<L.Link>) {
    forall l <- more :: l.kind == "relates" && SameWorkspace(issues, l.outward, l.inward)
  }

  /** Links go with either of their issues. */
  function Surviving(links: seq<L.Link>, ids: set<Id>): (r: seq<L.Link>)
    ensures forall l :: l in r <==> l in links && l.outward !in ids && l.inward !in ids
  {
    if links == [] then []
    else
      var rest := Surviving(links[1..], ids);
      if links[0].outward in ids || links[0].inward in ids then rest else [links[0]] + rest
  }

  ghost function Next(s: State, step: Step): State {
    match step
    case Ask(r) => s.(links := L.Next(s.issues, s.links, r))
    case Publish(valid, newId) => s.(links := S.Relinked(s.links, valid, newId))
    case Import(more) => if Importable(s.issues, more) then s.(links := s.links + more) else s
    case Purge(ids) => State(s.issues - ids, Surviving(s.links, ids))
    case Store(id, issue) =>
      if id in s.issues && s.issues[id].workspace != issue.workspace then s
      else s.(issues := s.issues[id := issue])
  }

  ghost predicate Sound(s: State) {
    L.Sound(s.issues, s.links)
  }

  /** Every link asked for joins issues of one workspace. */
  ghost predicate WithinWorkspaces(issues: map<Id, L.Issue>, valid: seq<S.Change>) {
    forall c <- valid, d <- c.patch.dependencies :: SameWorkspace(issues, c.issueId, d.issueId)
  }

  /** No PATCH closes a cycle, and no publication does or leaves a workspace. */
  ghost predicate Heeds(s: State, step: Step) {
    match step
    case Ask(r) => !L.ClosesOne(s.issues, s.links, r)
    case Publish(valid, newId) => WithinWorkspaces(s.issues, valid) && ClosesNone(s.links, valid, newId)
    case _ => true
  }

  lemma TenantedIff(issues: map<Id, L.Issue>, links: seq<L.Link>)
    ensures L.Tenanted(issues, links)
      <==> forall a, b, kind :: L.Taken(links, a, b, kind) ==> SameWorkspace(issues, a, b)
  {
    forall l <- links ensures L.Taken(links, l.outward, l.inward, l.kind) {}
  }

  lemma PublicationTenantedIff(issues: map<Id, L.Issue>, links: seq<L.Link>, valid: seq<S.Change>, newId: Id)
    requires L.Tenanted(issues, links)
    ensures L.Tenanted(issues, S.Relinked(links, valid, newId)) <==> WithinWorkspaces(issues, valid)
  {
    var after := S.Relinked(links, valid, newId);
    TenantedIff(issues, links);
    TenantedIff(issues, after);
    forall a, b, kind ensures L.Taken(after, a, b, kind) <==> L.Taken(links, a, b, kind) || Adds(valid, a, b, kind) {
      RelinkedLinks(links, valid, newId, a, b, kind);
    }
    if L.Tenanted(issues, after) {
      forall c <- valid, d <- c.patch.dependencies ensures SameWorkspace(issues, c.issueId, d.issueId) {
        assert Asks(c.patch.dependencies, d.issueId, d.kind);
        assert Adds(valid, c.issueId, d.issueId, d.kind);
      }
    }
  }

  lemma FewerLinksStaySound(s: State, t: State)
    requires Sound(s) && L.Tenanted(t.issues, t.links) && forall l <- t.links :: l.kind == "blocks" ==> l in s.links
    ensures Sound(t)
  {
    L.FewerEdgesAcyclic(L.Blocks(t.links), L.Blocks(s.links));
  }

  lemma StepKeepsSoundIff(s: State, step: Step)
    requires Sound(s)
    ensures Sound(Next(s, step)) <==> Heeds(s, step)
  {
    match step
    case Ask(r) => L.RequestKeepsSoundIff(s.issues, s.links, r);
    case Publish(valid, newId) =>
      PublicationTenantedIff(s.issues, s.links, valid, newId);
      PublicationAcyclicIff(s.links, valid, newId);
    case _ => FewerLinksStaySound(s, Next(s, step));
  }

  ghost predicate SoundThroughout(s: State, steps: seq<Step>)
    decreases |steps|
  {
    Sound(s) && (steps == [] || SoundThroughout(Next(s, steps[0]), steps[1..]))
  }

  ghost predicate HeedsThroughout(s: State, steps: seq<Step>)
    decreases |steps|
  {
    steps == [] || (Heeds(s, steps[0]) && HeedsThroughout(Next(s, steps[0]), steps[1..]))
  }

  /** Over any run of everything that writes links, they stay within workspaces and the blocking graph stays
      acyclic all the way, exactly when no accepted PATCH and no publication breaks that by itself. */
  lemma {:induction false} RunKeepsSoundIff(s: State, steps: seq<Step>)
    requires Sound(s)
    ensures SoundThroughout(s, steps) <==> HeedsThroughout(s, steps)
    decreases |steps|
  {
    if steps != [] {
      StepKeepsSoundIff(s, steps[0]);
      if Heeds(s, steps[0]) { RunKeepsSoundIff(Next(s, steps[0]), steps[1..]); }
    }
  }

  lemma LinkedReaches(es: seq<Graph.Edge>, a: Id, b: Id)
    requires Graph.Linked(es, a, b)
    ensures Graph.Reaches(es, a, b)
  {
    var e :| e in es && e.fromId == a && e.toId == b;
    assert Graph.Walk(es, a, [], a);
    Graph.WalkStep(es, a, [], e);
  }

  /** Nothing between proposing a dependency and publishing it looks for cycles: two issues, the second
      blocking the first, and a published change that makes the first block the second. */
  lemma PublicationCanCloseCycle() returns (s: State, valid: seq<S.Change>)
    ensures Sound(s) && WithinWorkspaces(s.issues, valid)
    ensures !Sound(Next(s, Publish(valid, 11)))
  {
    var ba := L.Link(10, 2, 1, "blocks", 0, 1);
    s := State(map[1 := L.Issue(0, false), 2 := L.Issue(0, false)], [ba]);
    var patch := S.Patch(None, None, None, None, [S.Dependency(2, "blocks", 0)], []);
    var change := S.Change(20, 30, 1, 1, S.Base(None, None, None, None), patch, 1);
    valid := [change];
    assert s.links[..0] == [] && L.Blocks(s.links) == [L.EdgeOf(ba)];
    Graph.RankedIsAcyclic(L.Blocks(s.links), map[2 := 1, 1 := 2]);
    assert Sound(s);
    assert patch.dependencies[0] in patch.dependencies && Asks(patch.dependencies, 2, "blocks");
    assert change in valid && Adds(valid, 1, 2, "blocks");
    var after := S.Relinked(s.links, valid, 11);
    assert ba in s.links && L.Taken(s.links, 2, 1, "blocks");
    RelinkedLinks(s.links, valid, 11, 2, 1, "blocks");
    BlockingIsLinked(after, 2, 1);
    LinkedReaches(L.Blocks(after), 2, 1);
    assert !ClosesNone(s.links, valid, 11);
    StepKeepsSoundIff(s, Publish(valid, 11));
  }
}
