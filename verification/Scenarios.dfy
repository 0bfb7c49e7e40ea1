/** Planning scenarios: proposed changes recorded against an issue version, and their
    all-or-nothing publication into issues, dependency links and capacity allocations. */
module Scenarios {
  import opened Issues
  import opened Wrappers
  import C = CapacityPlanning
  import L = IssueLinks

  datatype Dependency = Dependency(issueId: Id, kind: string, lagDays: int)

  /** Saving a proposal has already moved `weekStart` to the Monday of its week. */
  datatype Share = Share(teamId: Id, weekStart: int, estimatePoints: int)

  /** What a proposal may touch; an outer None leaves a field alone, and so does an empty list. */
  datatype Patch = Patch(
    dueDate: Option<Option<int>>, assigneeId: Option<Option<Id>>, parentId: Option<Option<Id>>,
    estimate: Option<Option<int>>, dependencies: seq<Dependency>, allocations: seq<Share>)

  datatype Base = Base(dueDate: Option<int>, assigneeId: Option<Id>, parentId: Option<Id>, estimate: Option<int>)

  datatype Change = Change(
    id: Id, scenarioId: Id, issueId: Id, baseVersion: nat, baseSnapshot: Base, patch: Patch, version: nat)

  datatype Reason = NotAuthorized | SourceChanged
  datatype Conflict = Conflict(changeId: Id, issueId: Id, reason: Reason)
  datatype Rollback = Rollback(issueId: Id, version: nat, snapshot: Base)
  datatype PublishStatus = Completed | Partial | Conflicted

  datatype Publication = Publication(
    scenarioId: Id, status: PublishStatus, applied: seq<Id>, conflicts: seq<Conflict>, rollback: seq<Rollback>)

  function BaseOf(i: Issue): Base {
    Base(i.dueDate, i.assigneeId, i.parentId, i.estimate)
  }

  function ScenarioIssueUpdate(patch: Patch, i: Issue): Issue {
    i.(dueDate := patch.dueDate.GetOr(i.dueDate), assigneeId := patch.assigneeId.GetOr(i.assigneeId),
       parentId := patch.parentId.GetOr(i.parentId), estimate := patch.estimate.GetOr(i.estimate),
       version := i.version + 1)
  }

  /** A saved snapshot written over an issue. */
  function WriteBack(i: Issue, b: Base): Issue {
    i.(dueDate := b.dueDate, assigneeId := b.assigneeId, parentId := b.parentId, estimate := b.estimate)
  }

  // ---- Saving a proposal

  function Find(changes: seq<Change>, scenarioId: Id, issueId: Id): (i: int)
    ensures -1 <= i < |changes|
    ensures 0 <= i ==> changes[i].scenarioId == scenarioId && changes[i].issueId == issueId
    ensures i == -1 <==> forall c <- changes :: !(c.scenarioId == scenarioId && c.issueId == issueId)
  {
    if changes == [] then -1
    else if changes[|changes| - 1].scenarioId == scenarioId && changes[|changes| - 1].issueId == issueId
    then |changes| - 1
    else
      assert forall c <- changes :: c in changes[..|changes| - 1] || c == changes[|changes| - 1];
      Find(changes[..|changes| - 1], scenarioId, issueId)
  }

  /** `permitted` stands for the visibility, ownership and patch checks that do not look at versions. */
  datatype Save = Save(permitted: bool, scenarioId: Id, issueId: Id, patch: Patch, version: Option<nat>, newId: Id)

  /** A second save replaces the patch but keeps the base it was recorded against. */
  function Saved(issues: Table, changes: seq<Change>, s: Save): seq<Change> {
    if !s.permitted || s.issueId !in issues || issues[s.issueId].archived then changes
    else
      var i := Find(changes, s.scenarioId, s.issueId);
      if i >= 0 then
        if s.version != Some(changes[i].version) then changes
        else changes[i := changes[i].(patch := s.patch, version := changes[i].version + 1)]
      else
        var issue := issues[s.issueId];
        changes + [Change(s.newId, s.scenarioId, s.issueId, issue.version, BaseOf(issue), s.patch, 1)]
  }

  // ---- Publishing

  function Selected(changes: seq<Change>, scenarioId: Id, ids: seq<Id>): (r: seq<Change>)
    ensures forall c :: c in r <==> c in changes && c.scenarioId == scenarioId && c.id in ids
  {
    if changes == [] then []
    else
      var rest := Selected(changes[1..], scenarioId, ids);
      if changes[0].scenarioId == scenarioId && changes[0].id in ids then [changes[0]] + rest else rest
  }

  function Verdict(issues: Table, authorized: set<Id>, c: Change): Option<Reason> {
    if c.issueId !in issues || c.issueId !in authorized then Some(NotAuthorized)
    else if issues[c.issueId].version != c.baseVersion then Some(SourceChanged)
    else None
  }

  function Valid(issues: Table, authorized: set<Id>, found: seq<Change>): (r: seq<Change>)
    ensures forall c :: c in r <==> c in found && Verdict(issues, authorized, c).None?
  {
    if found == [] then []
    else
      var front := Valid(issues, authorized, found[..|found| - 1]);
      var c := found[|found| - 1];
      assert forall x :: x in found <==> x in found[..|found| - 1] || x == c;
      if Verdict(issues, authorized, c).None? then front + [c] else front
  }

  function Conflicts(issues: Table, authorized: set<Id>, found: seq<Change>): seq<Conflict> {
    if found == [] then []
    else
      var front := Conflicts(issues, authorized, found[..|found| - 1]);
      var c := found[|found| - 1];
      match Verdict(issues, authorized, c)
      case None => front
      case Some(reason) => front + [Conflict(c.id, c.issueId, reason)]
  }

  /** The database takes no reference to an issue that is gone. */
  predicate RefersToStored(issues: Table, p: Patch) {
    && (p.parentId.Some? && p.parentId.value.Some? ==> p.parentId.value.value in issues)
    && forall d <- p.dependencies :: d.issueId in issues
  }

  predicate Goes(issues: Table, c: Change) {
    c.issueId in issues && issues[c.issueId].version == c.baseVersion && RefersToStored(issues, c.patch)
  }

  /** The guarded updates of the transaction, or None as soon as one finds its row changed or refers to
      an issue that is gone. */
  function Applied(issues: Table, valid: seq<Change>): (r: Option<Table>)
    ensures r.Some? ==> r.value.Keys == issues.Keys
  {
    if valid == [] then Some(issues)
    else
      var c := valid[|valid| - 1];
      match Applied(issues, valid[..|valid| - 1])
      case None => None
      case Some(t) =>
        if Goes(t, c) then Some(t[c.issueId := ScenarioIssueUpdate(c.patch, t[c.issueId])]) else None
  }

  // ---- The links and allocations a publication leaves

  function LinkPlace(links: seq<L.Link>, outward: Id, inward: Id, kind: string): (i: int)
    ensures -1 <= i < |links|
    ensures 0 <= i ==> links[i].outward == outward && links[i].inward == inward && links[i].kind == kind
    ensures i == -1 <==> !L.Taken(links, outward, inward, kind)
  {
    if links == [] then -1
    else
      var n := |links| - 1;
      assert forall l <- links :: l in links[..n] || l == links[n];
      if links[n].outward == outward && links[n].inward == inward && links[n].kind == kind then n
      else LinkPlace(links[..n], outward, inward, kind)
  }

  /** A link that is there gets the new lag; another is added, with no check for cycles. */
  function Upserted(links: seq<L.Link>, outward: Id, d: Dependency, newId: Id): seq<L.Link> {
    var i := LinkPlace(links, outward, d.issueId, d.kind);
    if i >= 0 then links[i := links[i].(lagDays := d.lagDays, version := links[i].version + 1)]
    else links + [L.Link(newId + |links|, outward, d.issueId, d.kind, d.lagDays, 1)]
  }

  function Depended(links: seq<L.Link>, outward: Id, ds: seq<Dependency>, newId: Id): seq<L.Link> {
    if ds == [] then links
    else Upserted(Depended(links, outward, ds[..|ds| - 1], newId), outward, ds[|ds| - 1], newId)
  }

  function Relinked(links: seq<L.Link>, valid: seq<Change>, newId: Id): seq<L.Link> {
    if valid == [] then links
    else
      var c := valid[|valid| - 1];
      Depended(Relinked(links, valid[..|valid| - 1], newId), c.issueId, c.patch.dependencies, newId)
  }

  function Shared(rows: seq<C.Allocation>, planId: Id, issueId: Id, shares: seq<Share>): seq<C.Allocation> {
    if shares == [] then rows
    else
      var s := shares[|shares| - 1];
      C.Saved(Shared(rows, planId, issueId, shares[..|shares| - 1]),
              C.Save(planId, issueId, s.teamId, s.weekStart, s.estimatePoints))
  }

  function Reallocated(rows: seq<C.Allocation>, planId: Id, valid: seq<Change>): seq<C.Allocation> {
    if valid == [] then rows
    else
      var c := valid[|valid| - 1];
      Shared(Reallocated(rows, planId, valid[..|valid| - 1]), planId, c.issueId, c.patch.allocations)
  }

  function Rollbacks(valid: seq<Change>): (r: seq<Rollback>)
    ensures |r| == |valid|
    ensures forall i :: 0 <= i < |r| ==> r[i] == Rollback(valid[i].issueId, valid[i].baseVersion, valid[i].baseSnapshot)
  {
    seq(|valid|, i requires 0 <= i < |valid| => Rollback(valid[i].issueId, valid[i].baseVersion, valid[i].baseSnapshot))
  }

  function IdsOf(changes: seq<Change>): (r: seq<Id>)
    ensures |r| == |changes| && forall i :: 0 <= i < |r| ==> r[i] == changes[i].id
  {
    seq(|changes|, i requires 0 <= i < |changes| => changes[i].id)
  }

  datatype Publish = Publish(
    permitted: bool, scenarioId: Id, planId: Id, selected: seq<Id>, authorized: set<Id>, newId: Id)

  function StatusOf(applied: nat, conflicts: nat): PublishStatus {
    if applied > 0 && conflicts > 0 then Partial else if applied > 0 then Completed else Conflicted
  }

  function ValidOf(issues: Table, changes: seq<Change>, p: Publish): seq<Change> {
    Valid(issues, p.authorized, Selected(changes, p.scenarioId, p.selected))
  }

  /** The issues and the record of a publication, or None when it is refused or aborted. */
  function Published(issues: Table, changes: seq<Change>, p: Publish): Option<(Table, Publication)> {
    if !p.permitted || |p.selected| == 0 || |p.selected| > 500 then None
    else
      var valid := ValidOf(issues, changes, p);
      var conflicts := Conflicts(issues, p.authorized, Selected(changes, p.scenarioId, p.selected));
      match Applied(issues, valid)
      case None => None
      case Some(t) =>
        Some((t, Publication(p.scenarioId, StatusOf(|valid|, |conflicts|), IdsOf(valid), conflicts, Rollbacks(valid))))
  }

  // ---- The stored tables

  ghost predicate InSlot(c: Change, scenarioId: Id, issueId: Id) {
    c.scenarioId == scenarioId && c.issueId == issueId
  }

  /** What a proposal was recorded against is older than its issue, or is what the issue still says, a
      parent that is gone aside. */
  ghost predicate BaseHolds(issues: Table, issueId: Id, version: nat, base: Base) {
    issueId in issues ==>
      && version <= issues[issueId].version
      && (version == issues[issueId].version ==>
            BaseOf(issues[issueId]) == base.(parentId := Kept(issues, base.parentId)))
  }

  ghost predicate BasesHold(issues: Table, changes: seq<Change>) {
    forall c <- changes :: BaseHolds(issues, c.issueId, c.baseVersion, c.baseSnapshot)
  }

  /** The slot of scenario and issue has the patch; its base is the one it had, or else the live row's. */
  ghost predicate SlotSaved(issues: Table, before: seq<Change>, after: seq<Change>, s: Save) {
    && (forall c <- before :: !InSlot(c, s.scenarioId, s.issueId) ==> c in after)
    && (forall c <- after :: !InSlot(c, s.scenarioId, s.issueId) ==> c in before)
    && s.issueId in issues
    && exists c <- after ::
      && InSlot(c, s.scenarioId, s.issueId) && c.patch == s.patch
      && (FirstSave(issues[s.issueId], c, s)
          || exists o <- before :: c == o.(patch := s.patch, version := o.version + 1))
  }

  /** The proposal is new and remembers the issue's version and the four columns a proposal can touch. */
  ghost predicate FirstSave(i: Issue, c: Change, s: Save) {
    && c.id == s.newId && c.version == 1 && c.baseVersion == i.version
    && c.baseSnapshot.dueDate == i.dueDate && c.baseSnapshot.assigneeId == i.assigneeId
    && c.baseSnapshot.parentId == i.parentId && c.baseSnapshot.estimate == i.estimate
  }

  /** At most one proposal for an issue in each scenario. */
  ghost predicate OnePerSlot(changes: seq<Change>) {
    forall i, j :: 0 <= i < j < |changes| ==>
      changes[i].scenarioId != changes[j].scenarioId || changes[i].issueId != changes[j].issueId
  }

  /** The issue is live, and a proposal that is there has the version the request names. */
  ghost predicate Savable(issues: Table, changes: seq<Change>, s: Save) {
    && s.permitted && s.issueId in issues && !issues[s.issueId].archived
    && forall c <- changes :: InSlot(c, s.scenarioId, s.issueId) ==> s.version == Some(c.version)
  }

  lemma OnlyFound(changes: seq<Change>, scenarioId: Id, issueId: Id)
    requires OnePerSlot(changes)
    ensures var i := Find(changes, scenarioId, issueId);
      forall c <- changes :: InSlot(c, scenarioId, issueId) ==> i >= 0 && c == changes[i]
  {
    var i := Find(changes, scenarioId, issueId);
    forall c <- changes | InSlot(c, scenarioId, issueId) ensures i >= 0 && c == changes[i] {
      var k :| 0 <= k < |changes| && changes[k] == c;
    }
  }

  /** A save never makes a second proposal for the same issue of a scenario. */
  lemma SaveKeepsSlots(issues: Table, changes: seq<Change>, s: Save)
    requires OnePerSlot(changes)
    ensures OnePerSlot(Saved(issues, changes, s))
  {
    assert forall k :: 0 <= k < |changes| ==> changes[k] in changes;
  }

  lemma SavableIff(issues: Table, changes: seq<Change>, s: Save)
    requires OnePerSlot(changes)
    ensures var i := Find(changes, s.scenarioId, s.issueId);
      Savable(issues, changes, s) <==>
        && s.permitted && s.issueId in issues && !issues[s.issueId].archived
        && (i >= 0 ==> s.version == Some(changes[i].version))
  {
    OnlyFound(changes, s.scenarioId, s.issueId);
    var i := Find(changes, s.scenarioId, s.issueId);
    if i >= 0 { assert changes[i] in changes; }
  }

  lemma SavedSlot(issues: Table, changes: seq<Change>, s: Save)
    requires s.permitted && s.issueId in issues && !issues[s.issueId].archived
    requires var i := Find(changes, s.scenarioId, s.issueId); i >= 0 ==> s.version == Some(changes[i].version)
    ensures SlotSaved(issues, changes, Saved(issues, changes, s), s)
  {
    var i, after := Find(changes, s.scenarioId, s.issueId), Saved(issues, changes, s);
    forall c <- changes | !InSlot(c, s.scenarioId, s.issueId) ensures c in after {
      var k :| 0 <= k < |changes| && changes[k] == c;
      assert after[k] == c;
    }
    forall c <- after | !InSlot(c, s.scenarioId, s.issueId) ensures c in changes {
      var k :| 0 <= k < |after| && after[k] == c;
      if k < |changes| { assert changes[k] in changes; }
    }
    var at := if i >= 0 then i else |changes|;
    assert after[at] in after;
    if i >= 0 { assert changes[i] in changes; }
  }

  lemma SavedBasesHold(issues: Table, changes: seq<Change>, s: Save)
    requires BasesHold(issues, changes) && ParentsStored(issues)
    ensures BasesHold(issues, Saved(issues, changes, s))
  {
    var saved := Saved(issues, changes, s);
    forall c <- saved ensures BaseHolds(issues, c.issueId, c.baseVersion, c.baseSnapshot) {
      var k :| 0 <= k < |saved| && saved[k] == c;
      if k < |changes| { assert changes[k] in changes; }
    }
  }

  lemma SaveMeans(issues: Table, changes: seq<Change>, s: Save)
    ensures BasesHold(issues, changes) && ParentsStored(issues) ==> BasesHold(issues, Saved(issues, changes, s))
    ensures var i := Find(changes, s.scenarioId, s.issueId);
      OnePerSlot(changes) ==>
        (Savable(issues, changes, s) <==>
           && s.permitted && s.issueId in issues && !issues[s.issueId].archived
           && (i >= 0 ==> s.version == Some(changes[i].version)))
  {
    if BasesHold(issues, changes) && ParentsStored(issues) { SavedBasesHold(issues, changes, s); }
    if OnePerSlot(changes) { SavableIff(issues, changes, s); }
  }

  class ScenarioStore {
    var issues: Table
    var changes: seq<Change>
    var links: seq<L.Link>
    var allocations: seq<C.Allocation>
    var publications: seq<Publication>

    constructor (issues: Table)
      ensures this.issues == issues && changes == [] && links == [] && allocations == [] && publications == []
    {
      this.issues, changes, links, allocations, publications := issues, [], [], [], [];
    }

    /** A later save keeps the base of the first, and no save touches another proposal. */
    method SaveScenarioChange(s: Save) returns (ok: bool)
      modifies this`changes
      ensures changes == Saved(issues, old(changes), s)
      ensures !ok ==> changes == old(changes)
      ensures OnePerSlot(old(changes)) ==> (ok <==> Savable(issues, old(changes), s))
      ensures ok ==> SlotSaved(issues, old(changes), changes, s)
      ensures OnePerSlot(old(changes)) ==> OnePerSlot(changes)
      ensures BasesHold(issues, old(changes)) && ParentsStored(issues) ==> BasesHold(issues, changes)
    {
      SaveMeans(issues, changes, s);
      if OnePerSlot(changes) { SaveKeepsSlots(issues, changes, s); }
      if !s.permitted || s.issueId !in issues || issues[s.issueId].archived { return false; }
      var issue, existing := issues[s.issueId], Find(changes, s.scenarioId, s.issueId);
      if existing >= 0 && s.version != Some(changes[existing].version) { return false; }
      SavedSlot(issues, changes, s);
      if existing >= 0 {
        changes := changes[existing := changes[existing].(patch := s.patch, version := changes[existing].version + 1)];
      } else {
        changes := changes + [Change(s.newId, s.scenarioId, s.issueId, issue.version, BaseOf(issue), s.patch, 1)];
      }
      ok := true;
    }

    /** Sorts the found changes into valid and conflicting ones, then applies the valid ones in a
        transaction that is given up as a whole when one of them no longer fits. */
    method PublishScenario(p: Publish) returns (ok: bool)
      modifies this`issues, this`links, this`allocations, this`publications
      ensures ok <==> Published(old(issues), changes, p).Some?
      ensures ok ==> issues == Published(old(issues), changes, p).value.0
      ensures ok ==> links == Relinked(old(links), ValidOf(old(issues), changes, p), p.newId)
      ensures ok ==> allocations == Reallocated(old(allocations), p.planId, ValidOf(old(issues), changes, p))
      ensures ok ==> publications == old(publications) + [Published(old(issues), changes, p).value.1]
      ensures !ok ==> issues == old(issues) && links == old(links) && allocations == old(allocations)
      ensures !ok ==> publications == old(publications)
    {
      if !p.permitted || |p.selected| == 0 || |p.selected| > 500 { return false; }
      var found := Selected(changes, p.scenarioId, p.selected);
      var valid, conflicts := Classify(p, found);
      var outcome := ApplyValid(p, valid);
      if outcome.None? { return false; }
      var written := outcome.value;
      issues, links, allocations := written.issues, written.links, written.allocations;
      publications := publications + [Publication(
        p.scenarioId, StatusOf(|written.applied|, |conflicts|), written.applied, conflicts, written.rollback)];
      ok := true;
    }

    method Classify(p: Publish, found: seq<Change>) returns (valid: seq<Change>, conflicts: seq<Conflict>)
      ensures valid == Valid(issues, p.authorized, found) && conflicts == Conflicts(issues, p.authorized, found)
    {
      valid, conflicts := [], [];
      for i := 0 to |found|
        invariant valid == Valid(issues, p.authorized, found[..i])
        invariant conflicts == Conflicts(issues, p.authorized, found[..i])
      {
        var change := found[i];
        assert found[..i + 1][..i] == found[..i];
        if change.issueId !in issues || change.issueId !in p.authorized {
          conflicts := conflicts + [Conflict(change.id, change.issueId, NotAuthorized)];
        } else if issues[change.issueId].version != change.baseVersion {
          conflicts := conflicts + [Conflict(change.id, change.issueId, SourceChanged)];
        } else {
          valid := valid + [change];
        }
      }
      assert found[..|found|] == found;
    }

    /** The transaction: updates of copies of the tables, committed by the caller. */
    method ApplyValid(p: Publish, valid: seq<Change>) returns (r: Option<Written>)
      ensures r.Some? <==> Applied(issues, valid).Some?
      ensures r.Some? ==> Reached(p, issues, links, allocations, valid, r.value)
    {
      var w := Written(issues, links, allocations, [], []);
      for i := 0 to |valid|
        invariant Reached(p, issues, links, allocations, valid[..i], w)
      {
        assert valid[..i + 1] == valid[..i] + [valid[i]];
        if !Goes(w.issues, valid[i]) {
          GoesNoFurther(issues, valid, i, w.issues);
          return None;
        }
        ReachedStep(p, issues, links, allocations, valid[..i], w, valid[i]);
        w := ApplyOne(p, w, valid[i]);
      }
      assert valid[..|valid|] == valid;
      r := Some(w);
    }
  }

  /** The tables a transaction has written so far, with its lists of applied ids and rollback entries. */
  datatype Written = Written(
    issues: Table, links: seq<L.Link>, allocations: seq<C.Allocation>, applied: seq<Id>, rollback: seq<Rollback>)

  /** The tables after the updates of `done`, in terms of the tables before. */
  ghost predicate Reached(
    p: Publish, issues: Table, links: seq<L.Link>, rows: seq<C.Allocation>, done: seq<Change>, w: Written)
  {
    && Applied(issues, done) == Some(w.issues) && w.links == Relinked(links, done, p.newId)
    && w.allocations == Reallocated(rows, p.planId, done)
    && w.applied == IdsOf(done) && w.rollback == Rollbacks(done)
  }

  function WrittenOn(p: Publish, w: Written, c: Change): Written
    requires Goes(w.issues, c)
  {
    Written(
      w.issues[c.issueId := ScenarioIssueUpdate(c.patch, w.issues[c.issueId])],
      Depended(w.links, c.issueId, c.patch.dependencies, p.newId),
      Shared(w.allocations, p.planId, c.issueId, c.patch.allocations),
      w.applied + [c.id], w.rollback + [Rollback(c.issueId, c.baseVersion, c.baseSnapshot)])
  }

  lemma ReachedStep(
    p: Publish, issues: Table, links: seq<L.Link>, rows: seq<C.Allocation>, done: seq<Change>, w: Written, c: Change)
    requires Reached(p, issues, links, rows, done, w) && Goes(w.issues, c)
    ensures Reached(p, issues, links, rows, done + [c], WrittenOn(p, w, c))
  {
    assert (done + [c])[..|done|] == done;
  }

  lemma GoesNoFurther(issues: Table, valid: seq<Change>, i: nat, t: Table)
    requires i < |valid| && Applied(issues, valid[..i]) == Some(t) && !Goes(t, valid[i])
    ensures Applied(issues, valid).None?
  {
    assert valid[..i + 1][..i] == valid[..i];
    AppliedFails(issues, valid, i + 1);
  }

  method ApplyOne(p: Publish, w: Written, change: Change) returns (r: Written)
    requires Goes(w.issues, change)
    ensures r == WrittenOn(p, w, change)
  {
    var table := w.issues[change.issueId := ScenarioIssueUpdate(change.patch, w.issues[change.issueId])];
    var rollback := w.rollback + [Rollback(change.issueId, change.baseVersion, change.baseSnapshot)];
    var links := Depend(w.links, change.issueId, change.patch.dependencies, p.newId);
    var rows := Allot(w.allocations, p.planId, change.issueId, change.patch.allocations);
    r := Written(table, links, rows, w.applied + [change.id], rollback);
  }

  method Depend(links: seq<L.Link>, outward: Id, ds: seq<Dependency>, newId: Id) returns (r: seq<L.Link>)
    ensures r == Depended(links, outward, ds, newId)
  {
    r := links;
    for i := 0 to |ds|
      invariant r == Depended(links, outward, ds[..i], newId)
    {
      assert ds[..i + 1][..i] == ds[..i];
      r := Upserted(r, outward, ds[i], newId);
    }
    assert ds[..|ds|] == ds;
  }

  method Allot(rows: seq<C.Allocation>, planId: Id, issueId: Id, shares: seq<Share>) returns (r: seq<C.Allocation>)
    ensures r == Shared(rows, planId, issueId, shares)
  {
    r := rows;
    for i := 0 to |shares|
      invariant r == Shared(rows, planId, issueId, shares[..i])
    {
      assert shares[..i + 1][..i] == shares[..i];
      r := C.Saved(r, C.Save(planId, issueId, shares[i].teamId, shares[i].weekStart, shares[i].estimatePoints));
    }
    assert shares[..|shares|] == shares;
  }

  lemma {:induction false} AppliedFails(issues: Table, valid: seq<Change>, n: nat)
    requires n <= |valid| && Applied(issues, valid[..n]).None?
    ensures Applied(issues, valid).None?
    decreases |valid|
  {
    if n < |valid| {
      assert valid[..|valid| - 1][..n] == valid[..n];
      AppliedFails(issues, valid[..|valid| - 1], n);
    } else {
      assert valid[..n] == valid;
    }
  }

  // ---- One publication

  /** Found changes are split between those applied and those in conflict. */
  lemma {:induction false} SplitOfFound(issues: Table, authorized: set<Id>, found: seq<Change>)
    ensures multiset(IdsOf(found)) ==
      multiset(IdsOf(Valid(issues, authorized, found))) + multiset(ConflictIds(Conflicts(issues, authorized, found)))
    decreases |found|
  {
    if found != [] {
      var front, c := found[..|found| - 1], found[|found| - 1];
      SplitOfFound(issues, authorized, front);
      assert IdsOf(found) == IdsOf(front) + [c.id];
      var valid, conflicts := Valid(issues, authorized, front), Conflicts(issues, authorized, front);
      if Verdict(issues, authorized, c).None? {
        assert IdsOf(valid + [c]) == IdsOf(valid) + [c.id];
      } else {
        var x := Conflict(c.id, c.issueId, Verdict(issues, authorized, c).value);
        assert ConflictIds(conflicts + [x]) == ConflictIds(conflicts) + [c.id];
      }
    }
  }

  /** With distinct change ids no change is on both sides. */
  lemma SidesAreDisjoint(issues: Table, authorized: set<Id>, found: seq<Change>)
    requires forall i, j :: 0 <= i < j < |found| ==> found[i].id != found[j].id
    ensures multiset(IdsOf(Valid(issues, authorized, found)))
      !! multiset(ConflictIds(Conflicts(issues, authorized, found)))
  {
    SplitOfFound(issues, authorized, found);
    var ids := IdsOf(found);
    DistinctCounts(ids);
    var a := multiset(IdsOf(Valid(issues, authorized, found)));
    var b := multiset(ConflictIds(Conflicts(issues, authorized, found)));
    forall id ensures !(id in a && id in b) {
      assert (a + b)[id] == a[id] + b[id] && multiset(ids)[id] <= 1;
    }
  }

  lemma {:induction false} DistinctCounts(ids: seq<Id>)
    requires forall i, j :: 0 <= i < j < |ids| ==> ids[i] != ids[j]
    ensures forall id :: multiset(ids)[id] <= 1
    decreases |ids|
  {
    if ids != [] {
      var front, last := ids[..|ids| - 1], ids[|ids| - 1];
      DistinctCounts(front);
      assert ids == front + [last];
      assert last !in multiset(front);
    }
  }

  function ConflictIds(conflicts: seq<Conflict>): (r: seq<Id>)
    ensures |r| == |conflicts| && forall i :: 0 <= i < |r| ==> r[i] == conflicts[i].changeId
  {
    seq(|conflicts|, i requires 0 <= i < |conflicts| => conflicts[i].changeId)
  }

  ghost predicate Touches(valid: seq<Change>, id: Id) {
    exists c <- valid :: c.issueId == id
  }

  /** Updates of other issues leave a row alone. */
  lemma {:induction false} AppliedElsewhere(issues: Table, valid: seq<Change>, id: Id)
    requires Applied(issues, valid).Some? && id in issues && !Touches(valid, id)
    ensures Applied(issues, valid).value[id] == issues[id]
    decreases |valid|
  {
    if valid != [] {
      assert valid[|valid| - 1] in valid && forall x <- valid[..|valid| - 1] :: x in valid;
      AppliedElsewhere(issues, valid[..|valid| - 1], id);
    }
  }

  /** A named issue is named once, and gets its patch and one version more. */
  lemma {:induction false} AppliedOnce(issues: Table, valid: seq<Change>, k: nat)
    requires Applied(issues, valid).Some? && k < |valid|
    requires forall c <- valid :: c.issueId in issues && issues[c.issueId].version == c.baseVersion
    ensures Applied(issues, valid).value[valid[k].issueId] ==
      ScenarioIssueUpdate(valid[k].patch, issues[valid[k].issueId])
    ensures forall i :: 0 <= i < |valid| && i != k ==> valid[i].issueId != valid[k].issueId
    decreases |valid|
  {
    var n := |valid| - 1;
    var front, c := valid[..n], valid[n];
    assert c in valid && forall x <- front :: x in valid;
    if k < n {
      AppliedOnce(issues, front, k);
      assert front[k] == valid[k] && Applied(issues, front).value[valid[k].issueId].version == valid[k].baseVersion + 1;
      forall i | 0 <= i < |valid| && i != k ensures valid[i].issueId != valid[k].issueId {
        if i < n { assert front[i] == valid[i]; }
      }
    } else {
      if Touches(front, c.issueId) {
        var x :| x in front && x.issueId == c.issueId;
        var i :| 0 <= i < n && front[i] == x;
        AppliedOnce(issues, front, i);
      }
      AppliedElsewhere(issues, front, c.issueId);
      forall i | 0 <= i < n ensures valid[i].issueId != c.issueId {
        assert front[i] in front;
      }
    }
  }
}
