/** What link requests are answered, and what they write, said about requests and rows alone. */
module LinkLaws {
  import opened Graph
  import opened IssueLinks
  import opened Wrappers

  ghost predicate Seen(issues: map<Id, Issue>, workspace: Id, id: Id) {
    id in issues && !issues[id].archived && issues[id].workspace == workspace
  }

  /** Three kinds, and a lag of at most a year either way. */
  ghost predicate Admissible(kind: string, lagDays: int) {
    (kind == "blocks" || kind == "relates" || kind == "duplicates") && -365 <= lagDays && lagDays <= 365
  }

  /** Blocking links of the workspace lead from one issue to the other. */
  ghost predicate Chained(issues: map<Id, Issue>, links: seq<Link>, workspace: Id, from: Id, to: Id) {
    exists chain ::
      ChainOfBlocks(issues, links, workspace, chain) && chain[0] == from && chain[|chain| - 1] == to
  }

  ghost predicate ChainOfBlocks(issues: map<Id, Issue>, links: seq<Link>, workspace: Id, chain: seq<Id>) {
    0 < |chain| && forall k :: 0 <= k < |chain| - 1 ==> BlocksDirectly(issues, links, workspace, chain[k], chain[k + 1])
  }

  ghost predicate BlocksDirectly(issues: map<Id, Issue>, links: seq<Link>, workspace: Id, from: Id, to: Id) {
    && from in issues && issues[from].workspace == workspace
    && exists l <- links :: l.kind == "blocks" && l.outward == from && l.inward == to
  }

  ghost predicate Repeats(links: seq<Link>, outward: Id, inward: Id, kind: string) {
    exists k :: 0 <= k < |links| && links[k].outward == outward && links[k].inward == inward && links[k].kind == kind
  }

  lemma TakenIffRepeats(links: seq<Link>, outward: Id, inward: Id, kind: string)
    ensures Taken(links, outward, inward, kind) <==> Repeats(links, outward, inward, kind)
  {
    if l :| l in links && l.outward == outward && l.inward == inward && l.kind == kind {
      var k :| 0 <= k < |links| && links[k] == l;
    }
  }

  lemma {:induction false} WalkIsChain(
    issues: map<Id, Issue>, links: seq<Link>, workspace: Id, a: Id, w: seq<Edge>, b: Id) returns (chain: seq<Id>)
    requires Walk(BlocksOf(issues, links, workspace), a, w, b)
    ensures ChainOfBlocks(issues, links, workspace, chain) && chain[0] == a && chain[|chain| - 1] == b
    decreases |w|
  {
    chain := [a];
    if w != [] {
      var last := w[|w| - 1];
      var front := WalkIsChain(issues, links, workspace, a, w[..|w| - 1], last.fromId);
      var l :| l in links && l.kind == "blocks" && last == EdgeOf(l);
      assert BlocksDirectly(issues, links, workspace, last.fromId, b);
      chain := front + [b];
    }
  }

  lemma {:induction false} ChainIsWalk(issues: map<Id, Issue>, links: seq<Link>, workspace: Id, chain: seq<Id>)
    requires ChainOfBlocks(issues, links, workspace, chain)
    ensures Reaches(BlocksOf(issues, links, workspace), chain[0], chain[|chain| - 1])
    decreases |chain|
  {
    var es, n := BlocksOf(issues, links, workspace), |chain| - 1;
    if n == 0 {
      assert Walk(es, chain[0], [], chain[0]);
    } else {
      var front := chain[..n];
      ChainIsWalk(issues, links, workspace, front);
      assert BlocksDirectly(issues, links, workspace, chain[n - 1], chain[n]);
      var l :| l in links && l.kind == "blocks" && l.outward == chain[n - 1] && l.inward == chain[n];
      var e := EdgeOf(l);
      assert e in Blocks(links) && e in es;
      ReachesOn(es, chain[0], chain[n - 1], e);
    }
  }

  lemma ClosesIffChained(issues: map<Id, Issue>, links: seq<Link>, workspace: Id, outward: Id, inward: Id)
    ensures ClosesCycle(issues, links, workspace, outward, inward)
      <==> outward == inward || Chained(issues, links, workspace, inward, outward)
  {
    var es := BlocksOf(issues, links, workspace);
    if Reaches(es, inward, outward) {
      var w :| Walk(es, inward, w, outward);
      var chain := WalkIsChain(issues, links, workspace, inward, w, outward);
    }
    if Chained(issues, links, workspace, inward, outward) {
      var chain :|
        ChainOfBlocks(issues, links, workspace, chain) && chain[0] == inward && chain[|chain| - 1] == outward;
      ChainIsWalk(issues, links, workspace, chain);
    }
  }

  // ---- POST

  /** The new link would close a cycle of blocks, which counts for blocking links alone. */
  ghost predicate Circular(issues: map<Id, Issue>, links: seq<Link>, r: Request)
    requires r.Post?
  {
    r.kind == "blocks" && (r.source == r.target || Chained(issues, links, r.workspace, r.target, r.source))
  }

  /** Which answer a POST gets: a cycle comes before a repetition, and both issues are looked for first. */
  lemma PostAnswers(issues: map<Id, Issue>, links: seq<Link>, r: Request)
    requires r.Post?
    ensures var status := PostStatus(issues, links, r);
      var from, to := r.permitted && Seen(issues, r.workspace, r.source), Seen(issues, r.workspace, r.target);
      var fits := Admissible(r.kind, match r.lagDays case Some(n) => n case None => 0);
      && (status == 404 <==> !from || (fits && !to))
      && (status == 409 <==> from && fits && to && Circular(issues, links, r))
      && (status == 201 <==>
            (from && fits && to && !Circular(issues, links, r) && !Repeats(links, r.source, r.target, r.kind)))
      && (status == 201 || status == 400 || status == 404 || status == 409)
  {
    TakenIffRepeats(links, r.source, r.target, r.kind);
    ClosesIffChained(issues, links, r.workspace, r.source, r.target);
  }

  /** An accepted POST adds one row, from the issue of the path to the one of the body. */
  lemma PostMeans(issues: map<Id, Issue>, links: seq<Link>, r: Request)
    requires r.Post? && PostStatus(issues, links, r) == 201
    ensures var after, n := Next(issues, links, r), |links|;
      && |after| == n + 1 && after[..n] == links
      && after[n].id == r.newId && after[n].outward == r.source && after[n].inward == r.target
      && after[n].kind == r.kind && after[n].version == 1
      && after[n].lagDays == match r.lagDays case Some(days) => days case None => 0
  {
    var l := Link(r.newId, r.source, r.target, r.kind, r.lagDays.GetOr(0), 1);
    assert (links + [l])[..|links|] == links;
  }

  // ---- PATCH and DELETE

  ghost predicate UniqueIds(links: seq<Link>) {
    forall i, j :: 0 <= i < j < |links| ==> links[i].id != links[j].id
  }

  /** The row is the one the request names, and its issue the one of the path. */
  ghost predicate Names(issues: map<Id, Issue>, l: Link, workspace: Id, permitted: bool, source: Id, linkId: Id) {
    l.id == linkId && l.outward == source && permitted && Seen(issues, workspace, source)
  }

  lemma PositionIs(links: seq<Link>, k: int)
    requires UniqueIds(links) && 0 <= k < |links|
    ensures Position(links, links[k].id) == k
  {
    var i := Position(links, links[k].id);
    assert links[k] in links;
  }

  ghost predicate Outdated(issues: map<Id, Issue>, l: Link, r: Request)
    requires r.Patch? || r.Delete?
  {
    Names(issues, l, r.workspace, r.permitted, r.source, r.linkId) && l.version != r.version
  }

  /** A PATCH without a kind keeps the kind; without a lag it asks for none. */
  ghost predicate PatchGoes(issues: map<Id, Issue>, links: seq<Link>, r: Request, k: int)
    requires r.Patch? && 0 <= k < |links|
  {
    var kind := match r.newKind case Some(s) => s case None => links[k].kind;
    && Names(issues, links[k], r.workspace, r.permitted, r.source, r.linkId) && links[k].version == r.version
    && Admissible(kind, match r.lagDays case Some(n) => n case None => 0)
    && (kind == links[k].kind || !Repeats(links, links[k].outward, links[k].inward, kind))
  }

  /** Which answer a PATCH gets. */
  lemma PatchAnswers(issues: map<Id, Issue>, links: seq<Link>, r: Request)
    requires r.Patch? && UniqueIds(links)
    ensures var status := PatchStatus(issues, links, r);
      && (status == 404 <==> forall k :: 0 <= k < |links| ==>
            !Names(issues, links[k], r.workspace, r.permitted, r.source, r.linkId))
      && (status == 409 <==> exists k :: 0 <= k < |links| && Outdated(issues, links[k], r))
      && (status == 200 <==> exists k :: 0 <= k < |links| && PatchGoes(issues, links, r, k))
      && (status == 200 || status == 400 || status == 404 || status == 409)
  {
    var i := Position(links, r.linkId);
    forall k | 0 <= k < |links| && links[k].id == r.linkId ensures k == i { PositionIs(links, k); }
    if i >= 0 {
      TakenIffRepeats(links, links[i].outward, links[i].inward, Patched(links[i], r).kind);
      assert Names(issues, links[i], r.workspace, r.permitted, r.source, r.linkId)
        <==> PatchStatus(issues, links, r) != 404;
      assert PatchGoes(issues, links, r, i) <==> PatchStatus(issues, links, r) == 200;
    }
  }

  /** An accepted PATCH rewrites kind and lag of the row it names, at its next version. */
  lemma PatchMeans(issues: map<Id, Issue>, links: seq<Link>, r: Request) returns (k: int)
    requires r.Patch? && PatchStatus(issues, links, r) == 200
    ensures 0 <= k < |links| && PatchGoes(issues, links, r, k)
    ensures var after := Next(issues, links, r);
      && |after| == |links| && (forall j :: 0 <= j < |links| && j != k ==> after[j] == links[j])
      && after[k].kind == (match r.newKind case Some(s) => s case None => links[k].kind)
      && after[k].lagDays == (match r.lagDays case Some(n) => n case None => 0)
      && after[k].version == links[k].version + 1
      && after[k] == links[k].(kind := after[k].kind, lagDays := after[k].lagDays, version := after[k].version)
  {
    k := Position(links, r.linkId);
    TakenIffRepeats(links, links[k].outward, links[k].inward, Patched(links[k], r).kind);
  }

  lemma DeleteAnswers(issues: map<Id, Issue>, links: seq<Link>, r: Request)
    requires r.Delete? && UniqueIds(links)
    ensures var status := DeleteStatus(issues, links, r);
      && (status == 404 <==> forall k :: 0 <= k < |links| ==>
            !Names(issues, links[k], r.workspace, r.permitted, r.source, r.linkId))
      && (status == 409 <==> exists k :: 0 <= k < |links| && Outdated(issues, links[k], r))
      && (status == 204 || status == 404 || status == 409)
  {
    var i := Position(links, r.linkId);
    forall k | 0 <= k < |links| && links[k].id == r.linkId ensures k == i { PositionIs(links, k); }
  }

  /** An accepted DELETE takes out the row it names, and the others keep their order. */
  lemma DeleteMeans(issues: map<Id, Issue>, links: seq<Link>, r: Request) returns (k: int)
    requires r.Delete? && DeleteStatus(issues, links, r) == 204
    ensures 0 <= k < |links| && links[k].version == r.version
    ensures Names(issues, links[k], r.workspace, r.permitted, r.source, r.linkId)
    ensures Next(issues, links, r) == links[..k] + links[k + 1..]
  {
    k := Position(links, r.linkId);
  }
}
