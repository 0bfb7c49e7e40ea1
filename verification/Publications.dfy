/** What one publication does to the rows, to the hierarchy and to the dependency graph.  It checks again
    neither parents nor cycles, and these are the exact conditions under which it keeps both sound. */
module Publications {
  import opened Issues
  import opened Scenarios
  import opened Wrappers
  import C = CapacityPlanning
  import Forest
  import Graph
  import Hierarchy
  import L = IssueLinks

  /** A published row got the patch of one valid change, or was left alone. */
  lemma PublishedRow(issues: Table, changes: seq<Change>, p: Publish, id: Id) returns (c: Option<Change>)
    requires Published(issues, changes, p).Some? && id in issues
    ensures c.Some? <==> Touches(ValidOf(issues, changes, p), id)
    ensures c.Some? ==> c.value in ValidOf(issues, changes, p) && c.value.issueId == id
    ensures Published(issues, changes, p).value.0[id] ==
      if c.Some? then ScenarioIssueUpdate(c.value.patch, issues[id]) else issues[id]
  {
    var valid := ValidOf(issues, changes, p);
    if Touches(valid, id) {
      var k :| 0 <= k < |valid| && valid[k].issueId == id;
      AppliedOnce(issues, valid, k);
      c := Some(valid[k]);
    } else {
      AppliedElsewhere(issues, valid, id);
      c := None;
    }
  }

  /** A valid change of a publication got through as the only one of its issue. */
  lemma ValidChangeRow(issues: Table, changes: seq<Change>, p: Publish, c: Change)
    requires Published(issues, changes, p).Some? && c in ValidOf(issues, changes, p)
    ensures c in changes && c.issueId in issues && issues[c.issueId].version == c.baseVersion
    ensures Published(issues, changes, p).value.0[c.issueId] == ScenarioIssueUpdate(c.patch, issues[c.issueId])
  {
    var valid := ValidOf(issues, changes, p);
    var k :| 0 <= k < |valid| && valid[k] == c;
    AppliedOnce(issues, valid, k);
  }

  lemma {:induction false} AppliedStores(issues: Table, valid: seq<Change>, c: Change)
    requires Applied(issues, valid).Some? && c in valid
    ensures RefersToStored(issues, c.patch)
    decreases |valid|
  {
    var front, last := valid[..|valid| - 1], valid[|valid| - 1];
    if c != last {
      assert valid == front + [last];
      AppliedStores(issues, front, c);
    }
  }

  // ---- Publications, said about the columns of changes and issues

  /** The change is selected, its issue is there, may be edited, and is at the version it was proposed for. */
  ghost predicate Appliable(issues: Table, changes: seq<Change>, p: Publish, c: Change) {
    && c in changes && c.scenarioId == p.scenarioId && c.id in p.selected
    && c.issueId in issues && c.issueId in p.authorized && issues[c.issueId].version == c.baseVersion
  }

  /** The entry of the record that takes the change back: the version and the columns it was based on. */
  ghost predicate Recovers(issues: Table, changes: seq<Change>, p: Publish, c: Change, r: Rollback) {
    && Appliable(issues, changes, p, c) && r.issueId == c.issueId
    && r.version == c.baseVersion && r.snapshot == c.baseSnapshot
  }

  lemma ValidIsAppliable(issues: Table, changes: seq<Change>, p: Publish, c: Change)
    ensures c in ValidOf(issues, changes, p) <==> Appliable(issues, changes, p, c)
  {}

  /** An applied change writes the columns its patch names, raises the version by one, and nothing else. */
  lemma AppliedColumns(issues: Table, changes: seq<Change>, p: Publish, c: Change)
    requires Published(issues, changes, p).Some? && Appliable(issues, changes, p, c)
    ensures c.issueId in Published(issues, changes, p).value.0
    ensures var i, t := issues[c.issueId], Published(issues, changes, p).value.0[c.issueId];
      && t.dueDate == (match c.patch.dueDate case Some(d) => d case None => i.dueDate)
      && t.assigneeId == (match c.patch.assigneeId case Some(a) => a case None => i.assigneeId)
      && t.parentId == (match c.patch.parentId case Some(x) => x case None => i.parentId)
      && t.estimate == (match c.patch.estimate case Some(e) => e case None => i.estimate)
      && t.version == i.version + 1
      && t == i.(dueDate := t.dueDate, assigneeId := t.assigneeId, parentId := t.parentId, estimate := t.estimate,
                 version := t.version)
  {
    ValidIsAppliable(issues, changes, p, c);
    ValidChangeRow(issues, changes, p, c);
  }

  /** Issues no change is applied to stay as they were, and none comes or goes. */
  lemma UntouchedRows(issues: Table, changes: seq<Change>, p: Publish, id: Id)
    requires Published(issues, changes, p).Some?
    ensures Published(issues, changes, p).value.0.Keys == issues.Keys
    ensures id in issues && (forall c <- changes :: c.issueId == id ==> !Appliable(issues, changes, p, c)) ==>
      Published(issues, changes, p).value.0[id] == issues[id]
  {
    if id in issues {
      var c := PublishedRow(issues, changes, p, id);
      if c.Some? { ValidIsAppliable(issues, changes, p, c.value); }
    }
  }

  /** Why a selected change that is not applied is in conflict. */
  ghost predicate ConflictSays(issues: Table, p: Publish, c: Change, x: Conflict) {
    && x.changeId == c.id && x.issueId == c.issueId
    && if c.issueId !in issues || c.issueId !in p.authorized then x.reason == NotAuthorized
       else x.reason == SourceChanged
  }

  ghost predicate FromConflict(issues: Table, changes: seq<Change>, p: Publish, x: Conflict) {
    exists c <- changes ::
      && c.scenarioId == p.scenarioId && c.id in p.selected && !Appliable(issues, changes, p, c)
      && ConflictSays(issues, p, c, x)
  }

  lemma {:induction false} ConflictsMean(issues: Table, authorized: set<Id>, found: seq<Change>, x: Conflict)
    ensures x in Conflicts(issues, authorized, found) <==>
      exists c <- found :: Verdict(issues, authorized, c) == Some(x.reason) && x == Conflict(c.id, c.issueId, x.reason)
    decreases |found|
  {
    if found != [] {
      var front, c := found[..|found| - 1], found[|found| - 1];
      ConflictsMean(issues, authorized, front, x);
      assert forall y :: y in found <==> y in front || y == c;
    }
  }

  /** The record of a publication: which changes were applied, which are in conflict and why, the snapshot
      of each applied one, and a status that says which of the two there were. */
  lemma RecordMeans(issues: Table, changes: seq<Change>, p: Publish)
    requires Published(issues, changes, p).Some?
    ensures var record := Published(issues, changes, p).value.1;
      && record.scenarioId == p.scenarioId
      && (forall id :: id in record.applied <==>
            exists c <- changes :: c.id == id && Appliable(issues, changes, p, c))
      && (forall x :: x in record.conflicts <==> FromConflict(issues, changes, p, x))
      && (forall r :: r in record.rollback <==>
            exists c <- changes :: Recovers(issues, changes, p, c, r))
      && (record.status == Conflicted <==> record.applied == [])
      && (record.status == Partial <==> record.applied != [] && record.conflicts != [])
  {
    var record, valid := Published(issues, changes, p).value.1, ValidOf(issues, changes, p);
    var found := Selected(changes, p.scenarioId, p.selected);
    forall c { ValidIsAppliable(issues, changes, p, c); }
    forall id
      ensures id in record.applied <==> exists c <- changes :: c.id == id && Appliable(issues, changes, p, c)
    {
      if id in record.applied {
        var k :| 0 <= k < |valid| && record.applied[k] == id;
        assert valid[k] in valid;
      }
      if c :| c in changes && c.id == id && Appliable(issues, changes, p, c) {
        var k :| 0 <= k < |valid| && valid[k] == c;
        assert record.applied[k] == id;
      }
    }
    forall x ensures x in record.conflicts <==> FromConflict(issues, changes, p, x) {
      ConflictsMean(issues, p.authorized, found, x);
    }
    RollbackMeans(issues, changes, p);
  }

  lemma RollbackMeans(issues: Table, changes: seq<Change>, p: Publish)
    requires Published(issues, changes, p).Some?
    ensures forall r :: r in Published(issues, changes, p).value.1.rollback <==>
      exists c <- changes :: Recovers(issues, changes, p, c, r)
  {
    var rollback, valid := Published(issues, changes, p).value.1.rollback, ValidOf(issues, changes, p);
    forall c { ValidIsAppliable(issues, changes, p, c); }
    forall r
      ensures r in rollback <==>
        exists c <- changes :: Recovers(issues, changes, p, c, r)
    {
      if r in rollback {
        var k :| 0 <= k < |valid| && rollback[k] == r;
        assert valid[k] in valid;
      }
      if c :| c in changes && Recovers(issues, changes, p, c, r) {
        var k :| 0 <= k < |valid| && valid[k] == c;
        assert rollback[k] == r;
      }
    }
  }

  /** The parent and the dependencies a change names are issues that are there. */
  ghost predicate NamesStored(issues: Table, c: Change) {
    && (c.patch.parentId.Some? && c.patch.parentId.value.Some? ==> c.patch.parentId.value.value in issues)
    && forall d <- c.patch.dependencies :: d.issueId in issues
  }

  ghost predicate DifferentIssues(valid: seq<Change>) {
    forall i, j :: 0 <= i < j < |valid| ==> valid[i].issueId != valid[j].issueId
  }

  /** A publication goes through exactly when it is permitted, selects one to five hundred changes, applies
      at most one to each issue, and names no issue that is gone. */
  lemma PublishedIff(issues: Table, changes: seq<Change>, p: Publish)
    ensures Published(issues, changes, p).Some? <==>
      && p.permitted && 1 <= |p.selected| <= 500 && DifferentIssues(ValidOf(issues, changes, p))
      && forall c <- changes :: Appliable(issues, changes, p, c) ==> NamesStored(issues, c)
  {
    var valid := ValidOf(issues, changes, p);
    forall c { ValidIsAppliable(issues, changes, p, c); }
    if Applied(issues, valid).Some? {
      forall c <- valid ensures NamesStored(issues, c) { AppliedStores(issues, valid, c); }
      forall i, j | 0 <= i < j < |valid| ensures valid[i].issueId != valid[j].issueId {
        AppliedOnce(issues, valid, i);
      }
    }
    if DifferentIssues(valid) && forall c <- valid :: NamesStored(issues, c) { AllApply(issues, valid); }
  }

  lemma {:induction false} AllApply(issues: Table, valid: seq<Change>)
    requires DifferentIssues(valid)
    requires forall c <- valid :: c.issueId in issues && issues[c.issueId].version == c.baseVersion
    requires forall c <- valid :: NamesStored(issues, c)
    ensures Applied(issues, valid).Some?
    decreases |valid|
  {
    if valid != [] {
      var front, c := valid[..|valid| - 1], valid[|valid| - 1];
      assert c in valid && forall x <- front :: x in valid;
      AllApply(issues, front);
      AppliedElsewhere(issues, front, c.issueId);
    }
  }

  // ---- The hierarchy

  function Reparented(valid: seq<Change>): set<Id> {
    set c <- valid | c.patch.parentId.Some? :: c.issueId
  }

  /** A publication keeps the parents a forest exactly when above every issue it gave a parent the chain
      still ends. */
  lemma PublicationForestIff(issues: Table, changes: seq<Change>, p: Publish)
    requires Hierarchy.ParentsFormForest(issues) && Published(issues, changes, p).Some?
    ensures var t := Published(issues, changes, p).value.0;
      Hierarchy.ParentsFormForest(t) <==>
        forall id <- Reparented(ValidOf(issues, changes, p)) :: Forest.Ends(Hierarchy.ParentsOf(t), id)
  {
    var valid, t := ValidOf(issues, changes, p), Published(issues, changes, p).value.0;
    var before, after, moved := Hierarchy.ParentsOf(issues), Hierarchy.ParentsOf(t), Reparented(valid);
    forall id | id !in moved ensures Forest.Step(after, id) == Forest.Step(before, id) {
      if id in issues { var c := PublishedRow(issues, changes, p, id); }
    }
    Forest.MovedForestIff(before, after, moved);
  }

  // ---- The dependency graph

  lemma BlockingIsLinked(links: seq<L.Link>, a: Id, b: Id)
    ensures L.Taken(links, a, b, "blocks") <==> Graph.Linked(L.Blocks(links), a, b)
  {
    if L.Taken(links, a, b, "blocks") {
      var l :| l in links && l.kind == "blocks" && l.outward == a && l.inward == b;
      assert L.EdgeOf(l) in L.Blocks(links);
    }
    if Graph.Linked(L.Blocks(links), a, b) {
      var e :| e in L.Blocks(links) && e.fromId == a && e.toId == b;
      var l :| l in links && l.kind == "blocks" && e == L.EdgeOf(l);
    }
  }

  predicate Asks(ds: seq<Dependency>, b: Id, kind: string) {
    exists d <- ds :: d.kind == kind && d.issueId == b
  }

  /** The valid changes ask for a link of the kind from `a` to `b`. */
  predicate Adds(valid: seq<Change>, a: Id, b: Id, kind: string) {
    exists c <- valid :: c.issueId == a && Asks(c.patch.dependencies, b, kind)
  }

  lemma UpsertedLinks(links: seq<L.Link>, outward: Id, d: Dependency, newId: Id, a: Id, b: Id, kind: string)
    ensures L.Taken(Upserted(links, outward, d, newId), a, b, kind)
      <==> L.Taken(links, a, b, kind) || (d.kind == kind && a == outward && b == d.issueId)
  {
    var i, after := LinkPlace(links, outward, d.issueId, d.kind), Upserted(links, outward, d, newId);
    if L.Taken(after, a, b, kind) {
      var l :| l in after && l.kind == kind && l.outward == a && l.inward == b;
      var k :| 0 <= k < |after| && after[k] == l;
      if k < |links| { assert links[k] in links; }
    }
    if L.Taken(links, a, b, kind) {
      var l :| l in links && l.kind == kind && l.outward == a && l.inward == b;
      var k :| 0 <= k < |links| && links[k] == l;
      assert after[k] in after;
    }
    var at := if i >= 0 then i else |links|;
    assert after[at] in after;
    assert i >= 0 ==> links[i] in links;
  }

  lemma {:induction false} DependedLinks(
    links: seq<L.Link>, outward: Id, ds: seq<Dependency>, newId: Id, a: Id, b: Id, kind: string)
    ensures L.Taken(Depended(links, outward, ds, newId), a, b, kind)
      <==> L.Taken(links, a, b, kind) || (a == outward && Asks(ds, b, kind))
    decreases |ds|
  {
    if ds != [] {
      var front, d := ds[..|ds| - 1], ds[|ds| - 1];
      DependedLinks(links, outward, front, newId, a, b, kind);
      UpsertedLinks(Depended(links, outward, front, newId), outward, d, newId, a, b, kind);
      assert forall x :: x in ds <==> x in front || x == d;
    }
  }

  /** The links a publication leaves join what was joined and what its changes ask for. */
  lemma {:induction false} RelinkedLinks(
    links: seq<L.Link>, valid: seq<Change>, newId: Id, a: Id, b: Id, kind: string)
    ensures L.Taken(Relinked(links, valid, newId), a, b, kind)
      <==> L.Taken(links, a, b, kind) || Adds(valid, a, b, kind)
    decreases |valid|
  {
    if valid != [] {
      var front, c := valid[..|valid| - 1], valid[|valid| - 1];
      RelinkedLinks(links, front, newId, a, b, kind);
      DependedLinks(Relinked(links, front, newId), c.issueId, c.patch.dependencies, newId, a, b, kind);
      assert forall x :: x in valid <==> x in front || x == c;
    }
  }

  /** Afterwards no issue reaches one that the publication made block it. */
  ghost predicate ClosesNone(links: seq<L.Link>, valid: seq<Change>, newId: Id) {
    var after := L.Blocks(Relinked(links, valid, newId));
    forall a, b :: Adds(valid, a, b, "blocks") ==> !Graph.Reaches(after, b, a)
  }

  /** A publication keeps the blocking graph acyclic exactly when it closes none. */
  lemma PublicationAcyclicIff(links: seq<L.Link>, valid: seq<Change>, newId: Id)
    requires Graph.Acyclic(L.Blocks(links))
    ensures Graph.Acyclic(L.Blocks(Relinked(links, valid, newId))) <==> ClosesNone(links, valid, newId)
  {
    var before, after := L.Blocks(links), L.Blocks(Relinked(links, valid, newId));
    forall a, b
      ensures Graph.Linked(after, a, b) <==> Graph.Linked(before, a, b) || Adds(valid, a, b, "blocks")
    {
      RelinkedLinks(links, valid, newId, a, b, "blocks");
      BlockingIsLinked(links, a, b);
      BlockingIsLinked(Relinked(links, valid, newId), a, b);
    }
    L.GrownAcyclicIff(before, after);
    if Graph.Acyclic(after) {
      forall a, b | Adds(valid, a, b, "blocks") ensures !Graph.Reaches(after, b, a) {
        assert Graph.Linked(after, a, b);
        var e :| e in after && e.fromId == a && e.toId == b;
        if Graph.Reaches(after, b, a) { L.CycleThrough(after, e); }
      }
    } else {
      var e :| e in after && !Graph.Linked(before, e.fromId, e.toId) && Graph.Reaches(after, e.toId, e.fromId);
      assert Graph.Linked(after, e.fromId, e.toId);
    }
  }

  // ---- Lags and allocations

  ghost predicate AsksFor(valid: seq<Change>, l: L.Link) {
    Adds(valid, l.outward, l.inward, l.kind)
  }

  /** Every dependency on `b` of the kind asks for the lag. */
  ghost predicate SameLag(valid: seq<Change>, a: Id, b: Id, kind: string, lagDays: int) {
    forall c <- valid, d <- c.patch.dependencies ::
      c.issueId == a && d.issueId == b && d.kind == kind ==> d.lagDays == lagDays
  }

  ghost predicate HasLag(links: seq<L.Link>, a: Id, b: Id, kind: string, lagDays: int) {
    exists l <- links :: l.outward == a && l.inward == b && l.kind == kind && l.lagDays == lagDays
  }

  /** Links nobody asks for stay as they are. */
  lemma UpsertKeeps(links: seq<L.Link>, outward: Id, d: Dependency, newId: Id, l: L.Link)
    requires !(l.outward == outward && l.inward == d.issueId && l.kind == d.kind)
    ensures l in Upserted(links, outward, d, newId) <==> l in links
  {
    var i, after := LinkPlace(links, outward, d.issueId, d.kind), Upserted(links, outward, d, newId);
    if l in links {
      var k :| 0 <= k < |links| && links[k] == l;
      assert after[k] == l;
    }
    if l in after {
      var k :| 0 <= k < |after| && after[k] == l;
      if k < |links| { assert links[k] in links; }
    }
  }

  lemma UpsertLags(links: seq<L.Link>, outward: Id, d: Dependency, newId: Id)
    ensures HasLag(Upserted(links, outward, d, newId), outward, d.issueId, d.kind, d.lagDays)
  {
    var i, after := LinkPlace(links, outward, d.issueId, d.kind), Upserted(links, outward, d, newId);
    var at := if i >= 0 then i else |links|;
    assert after[at] in after;
  }

  lemma {:induction false} DependKeeps(links: seq<L.Link>, outward: Id, ds: seq<Dependency>, newId: Id, l: L.Link)
    requires !(l.outward == outward && Asks(ds, l.inward, l.kind))
    ensures l in Depended(links, outward, ds, newId) <==> l in links
    decreases |ds|
  {
    if ds != [] {
      var front, d := ds[..|ds| - 1], ds[|ds| - 1];
      assert d in ds && forall x <- front :: x in ds;
      DependKeeps(links, outward, front, newId, l);
      UpsertKeeps(Depended(links, outward, front, newId), outward, d, newId, l);
    }
  }

  lemma {:induction false} DependLags(
    links: seq<L.Link>, outward: Id, ds: seq<Dependency>, newId: Id, b: Id, kind: string, lagDays: int)
    requires Asks(ds, b, kind) || HasLag(links, outward, b, kind, lagDays)
    requires forall d <- ds :: d.issueId == b && d.kind == kind ==> d.lagDays == lagDays
    ensures HasLag(Depended(links, outward, ds, newId), outward, b, kind, lagDays)
    decreases |ds|
  {
    if ds != [] {
      var front, d := ds[..|ds| - 1], ds[|ds| - 1];
      assert d in ds && forall x <- front :: x in ds;
      var before := Depended(links, outward, front, newId);
      if d.issueId == b && d.kind == kind {
        UpsertLags(before, outward, d, newId);
      } else {
        assert forall x <- ds :: x in front || x == d;
        DependLags(links, outward, front, newId, b, kind, lagDays);
        var l :| l in before && l.outward == outward && l.inward == b && l.kind == kind && l.lagDays == lagDays;
        UpsertKeeps(before, outward, d, newId, l);
      }
    }
  }

  /** A publication leaves links alone that no applied change asks for ... */
  lemma {:induction false} RelinkKeeps(links: seq<L.Link>, valid: seq<Change>, newId: Id, l: L.Link)
    requires !AsksFor(valid, l)
    ensures l in Relinked(links, valid, newId) <==> l in links
    decreases |valid|
  {
    if valid != [] {
      var front, c := valid[..|valid| - 1], valid[|valid| - 1];
      assert c in valid && forall x <- front :: x in valid;
      RelinkKeeps(links, front, newId, l);
      DependKeeps(Relinked(links, front, newId), c.issueId, c.patch.dependencies, newId, l);
    }
  }

  /** ... and gives the others the lag asked for. */
  lemma {:induction false} RelinkLags(
    links: seq<L.Link>, valid: seq<Change>, newId: Id, a: Id, b: Id, kind: string, lagDays: int)
    requires Adds(valid, a, b, kind) && SameLag(valid, a, b, kind, lagDays)
    ensures HasLag(Relinked(links, valid, newId), a, b, kind, lagDays)
    decreases |valid|
  {
    var front, c := valid[..|valid| - 1], valid[|valid| - 1];
    assert c in valid && forall x <- front :: x in valid;
    var before := Relinked(links, front, newId);
    if c.issueId == a && Asks(c.patch.dependencies, b, kind) {
      DependLags(before, a, c.patch.dependencies, newId, b, kind, lagDays);
    } else {
      assert forall x <- valid :: x in front || x == c;
      RelinkLags(links, front, newId, a, b, kind, lagDays);
      var l :| l in before && l.outward == a && l.inward == b && l.kind == kind && l.lagDays == lagDays;
      DependKeeps(before, c.issueId, c.patch.dependencies, newId, l);
    }
  }

  /** The share is for the week of the slot. */
  predicate ShareIn(x: Share, weekStart: int) {
    C.InWeekOf(C.Save(0, 0, x.teamId, x.weekStart, x.estimatePoints), 0, 0, weekStart)
  }

  ghost predicate Shares(valid: seq<Change>, issueId: Id, weekStart: int, x: Share) {
    exists c <- valid :: c.issueId == issueId && x in c.patch.allocations && ShareIn(x, weekStart)
  }

  ghost predicate SameShare(xs: seq<Share>, weekStart: int, shown: (Id, int)) {
    forall x <- xs :: ShareIn(x, weekStart) ==> (x.teamId, x.estimatePoints) == shown
  }

  lemma {:induction false} SharedSlots(
    rows: seq<C.Allocation>, planId: Id, issueId: Id, xs: seq<Share>, otherPlan: Id, other: Id, weekStart: int,
    shown: Option<(Id, int)>)
    requires C.WellKept(rows)
    requires otherPlan == planId && other == issueId && shown.Some? ==> SameShare(xs, weekStart, shown.value)
    ensures var after := Shared(rows, planId, issueId, xs);
      && C.WellKept(after)
      && (if otherPlan == planId && other == issueId && exists x <- xs :: ShareIn(x, weekStart) then
            shown.Some? ==> C.Shown(after, otherPlan, other, weekStart) == shown
          else C.Shown(after, otherPlan, other, weekStart) == C.Shown(rows, otherPlan, other, weekStart))
    decreases |xs|
  {
    if xs != [] {
      var front, x := xs[..|xs| - 1], xs[|xs| - 1];
      assert x in xs && forall y :: y in xs <==> y in front || y == x;
      SharedSlots(rows, planId, issueId, front, otherPlan, other, weekStart, shown);
      var before, save := Shared(rows, planId, issueId, front),
                          C.Save(planId, issueId, x.teamId, x.weekStart, x.estimatePoints);
      C.SaveKeepsRows(before, save);
      C.SaveWritesItsSlot(before, save, otherPlan, other, weekStart);
    }
  }

  /** After a publication the slot of plan, issue and week shows what was asked for, if anything was, and
      else what it showed before. */
  lemma {:induction false} ReallocatedSlots(
    rows: seq<C.Allocation>, planId: Id, valid: seq<Change>, otherPlan: Id, other: Id, weekStart: int,
    shown: Option<(Id, int)>)
    requires C.WellKept(rows)
    requires otherPlan == planId && shown.Some? ==>
      forall c <- valid :: c.issueId == other ==> SameShare(c.patch.allocations, weekStart, shown.value)
    ensures var after := Reallocated(rows, planId, valid);
      && C.WellKept(after)
      && (if otherPlan == planId && exists x :: Shares(valid, other, weekStart, x) then
            shown.Some? ==> C.Shown(after, otherPlan, other, weekStart) == shown
          else C.Shown(after, otherPlan, other, weekStart) == C.Shown(rows, otherPlan, other, weekStart))
    decreases |valid|
  {
    if valid != [] {
      var front, c := valid[..|valid| - 1], valid[|valid| - 1];
      assert c in valid && forall y :: y in valid <==> y in front || y == c;
      ReallocatedSlots(rows, planId, front, otherPlan, other, weekStart, shown);
      SharedSlots(
        Reallocated(rows, planId, front), planId, c.issueId, c.patch.allocations, otherPlan, other, weekStart, shown);
      if x :| x in c.patch.allocations && ShareIn(x, weekStart) && c.issueId == other {
        assert Shares(valid, other, weekStart, x);
      }
      if x :| Shares(front, other, weekStart, x) { assert Shares(valid, other, weekStart, x); }
      if x :| Shares(valid, other, weekStart, x) {
        assert Shares(front, other, weekStart, x) || (c.issueId == other && x in c.patch.allocations);
      }
    }
  }

  // ---- Link rows: one for each pair and kind, and how far their versions go

  ghost predicate OnePerPair(links: seq<L.Link>) {
    forall i, j :: 0 <= i < j < |links| ==>
      links[i].outward != links[j].outward || links[i].inward != links[j].inward || links[i].kind != links[j].kind
  }

  predicate Joins(l: L.Link, outward: Id, d: Dependency) {
    l.outward == outward && l.inward == d.issueId && l.kind == d.kind
  }

  /** A dependency gives the row that joins the two its lag and its next version, or adds a first version
      of one, and no other row changes. */
  lemma UpsertMeans(links: seq<L.Link>, outward: Id, d: Dependency, newId: Id)
    requires OnePerPair(links)
    ensures var after := Upserted(links, outward, d, newId);
      && OnePerPair(after)
      && |after| == |links| + (if exists l <- links :: Joins(l, outward, d) then 0 else 1)
      && (forall k :: 0 <= k < |links| ==>
            after[k] == if Joins(links[k], outward, d)
                        then links[k].(lagDays := d.lagDays, version := links[k].version + 1) else links[k])
      && (|links| < |after| ==>
            after[|links|] == L.Link(newId + |links|, outward, d.issueId, d.kind, d.lagDays, 1))
  {
    var i := LinkPlace(links, outward, d.issueId, d.kind);
    if i >= 0 {
      assert links[i] in links && Joins(links[i], outward, d);
    } else {
      forall k | 0 <= k < |links| ensures !Joins(links[k], outward, d) { assert links[k] in links; }
    }
  }

  /** How many of the dependencies are about the pair and kind of the row. */
  function AskedFor(ds: seq<Dependency>, outward: Id, l: L.Link): nat {
    if ds == [] then 0
    else AskedFor(ds[..|ds| - 1], outward, l) + if Joins(l, outward, ds[|ds| - 1]) then 1 else 0
  }

  function AskedForBy(valid: seq<Change>, l: L.Link): nat {
    if valid == [] then 0
    else
      var c := valid[|valid| - 1];
      AskedForBy(valid[..|valid| - 1], l) + AskedFor(c.patch.dependencies, c.issueId, l)
  }

  /** The same row, at a version so much greater. */
  ghost predicate Ahead(before: L.Link, after: L.Link, steps: nat) {
    && after.version == before.version + steps
    && after == before.(lagDays := after.lagDays, version := after.version)
  }

  lemma {:induction false} DependOnce(links: seq<L.Link>, outward: Id, ds: seq<Dependency>, newId: Id)
    requires OnePerPair(links)
    ensures var after := Depended(links, outward, ds, newId);
      && OnePerPair(after) && |links| <= |after|
      && forall k :: 0 <= k < |links| ==> Ahead(links[k], after[k], AskedFor(ds, outward, links[k]))
    decreases |ds|
  {
    if ds != [] {
      var front, d := ds[..|ds| - 1], ds[|ds| - 1];
      DependOnce(links, outward, front, newId);
      UpsertMeans(Depended(links, outward, front, newId), outward, d, newId);
    }
  }

  /** A publication leaves one row for each pair and kind if there was no more, and each row that was there
      at one version more for each time its changes ask for it. */
  lemma {:induction false} RelinkOnce(links: seq<L.Link>, valid: seq<Change>, newId: Id)
    requires OnePerPair(links)
    ensures var after := Relinked(links, valid, newId);
      && OnePerPair(after) && |links| <= |after|
      && forall k :: 0 <= k < |links| ==> Ahead(links[k], after[k], AskedForBy(valid, links[k]))
    decreases |valid|
  {
    if valid != [] {
      var front, c := valid[..|valid| - 1], valid[|valid| - 1];
      RelinkOnce(links, front, newId);
      var middle := Relinked(links, front, newId);
      DependOnce(middle, c.issueId, c.patch.dependencies, newId);
      forall k | 0 <= k < |links| ensures AskedFor(c.patch.dependencies, c.issueId, middle[k])
        == AskedFor(c.patch.dependencies, c.issueId, links[k])
      {
        SameAsked(c.patch.dependencies, c.issueId, links[k], middle[k]);
      }
    }
  }

  lemma {:induction false} SameAsked(ds: seq<Dependency>, outward: Id, a: L.Link, b: L.Link)
    requires a.outward == b.outward && a.inward == b.inward && a.kind == b.kind
    ensures AskedFor(ds, outward, a) == AskedFor(ds, outward, b)
    decreases |ds|
  {
    if ds != [] { SameAsked(ds[..|ds| - 1], outward, a, b); }
  }
}
