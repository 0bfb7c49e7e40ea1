/** What the public API, bulk items, rules, settings and moves in the hierarchy do to issues, column by
    column, and exactly when they go through. */
module WriterLaws {
  import opened EditLaws
  import opened IssueEdit
  import opened Issues
  import opened Wrappers
  import opened Writers
  import Forest
  import Hierarchy

  /** One issue is written, at its next version, and no other changes. */
  ghost predicate OneWritten(before: Table, after: Table, id: Id) {
    && id in before && id in after && after.Keys == before.Keys && after[id].version == before[id].version + 1
    && forall x <- before :: x != id ==> after[x] == before[x]
  }

  // ---- The public API

  ghost predicate ApiFits(cfg: Config, i: Issue, e: ApiEdit) {
    && TextFits(e.summary, 1, 200) && TextFits(e.description, 0, 20_000)
    && (match e.estimate case Some(Some(n)) => 0 <= n && n <= 100 case _ => true)
    && (match e.statusId
        case Some(s) => s in cfg.statuses && cfg.statuses[s].project == i.project
        case None => true)
    && (e.summary.Some? || e.description.Some? || e.estimate.Some? || e.statusId.Some?)
  }

  /** When the API answers how: a version is asked for before anything else. */
  lemma ApiAnswers(cfg: Config, issues: Table, e: ApiEdit)
    ensures var status, found := ApiStatus(cfg, issues, e), e.permitted && e.id in issues && !issues[e.id].archived;
      var versioned := e.version.Some? && 1 <= e.version.value;
      && (status == 404 <==> versioned && !found)
      && (status == 409 <==> versioned && found && e.version != Some(issues[e.id].version))
      && (status == 200 <==>
            versioned && found && e.version == Some(issues[e.id].version) && ApiFits(cfg, issues[e.id], e))
      && (status == 200 || status == 400 || status == 404 || status == 409)
  {}

  /** An accepted API request writes the columns it names, and the completion time with the status. */
  lemma ApiMeans(cfg: Config, issues: Table, e: ApiEdit)
    requires ApiStatus(cfg, issues, e) == 200
    ensures OneWritten(issues, ApiPatched(cfg, issues, e), e.id)
    ensures var i, t := issues[e.id], ApiPatched(cfg, issues, e)[e.id];
      && Arrives(e.summary, i.summary, t.summary) && Arrives(e.description, i.description, t.description)
      && Arrives(e.estimate, i.estimate, t.estimate) && Arrives(e.statusId, i.statusId, t.statusId)
      && CompletedBy(cfg, e.statusId, e.now, i.completedAt, t.completedAt)
      && t == i.(summary := t.summary, description := t.description, estimate := t.estimate,
                 statusId := t.statusId, completedAt := t.completedAt, version := t.version)
  {}

  // ---- Bulk items

  /** Where no transition is enabled every move is free; else one between the two statuses is needed. */
  ghost predicate BulkMoves(cfg: Config, issues: Table, i: Issue, to: Id) {
    && to in cfg.statuses && cfg.statuses[to].project == i.project
    && ((forall t <- cfg.transitions :: t.enabled ==> t.project != i.project)
        || exists t <- cfg.transitions ::
             t.enabled && t.project == i.project && t.fromStatusId == i.statusId && t.toStatusId == to)
    && !Full(cfg, issues, i.project, to)
  }

  lemma BulkGoesIff(cfg: Config, issues: Table, b: BulkItem)
    ensures BulkGoes(cfg, issues, b) <==>
      && b.permitted && b.id in issues && !issues[b.id].archived && b.expectedVersion == issues[b.id].version
      && (match b.assigneeId case Some(Some(u)) => u in b.members case _ => true)
      && (match b.statusId case Some(s) => BulkMoves(cfg, issues, issues[b.id], s) case None => true)
      && (match b.fields case Some(fields) => forall f <- fields :: f in b.known case None => true)
  {
    if b.id in issues && b.statusId.Some? { ReachedIffFull(cfg, issues, issues[b.id].project, b.statusId.value); }
    if b.fields.Some? { KnownIff(b.fields.value, b.known); }
  }

  lemma KnownIff(fields: Fields, known: set<Id>)
    ensures fields.Keys <= known <==> forall f <- fields :: f in known
  {
    if forall f <- fields :: f in known {
      forall f <- fields.Keys ensures f in known {}
    }
  }

  lemma BulkMeans(cfg: Config, issues: Table, b: BulkItem)
    requires BulkGoes(cfg, issues, b)
    ensures OneWritten(issues, BulkApplied(cfg, issues, b), b.id)
    ensures var i, t := issues[b.id], BulkApplied(cfg, issues, b)[b.id];
      && Arrives(b.priority, i.priority, t.priority) && Arrives(b.assigneeId, i.assigneeId, t.assigneeId)
      && Arrives(b.statusId, i.statusId, t.statusId) && Arrives(b.labels, i.labels, t.labels)
      && CompletedBy(cfg, b.statusId, b.now, i.completedAt, t.completedAt)
      && (match b.fields case Some(fields) => OverlaidBy(i.fields, fields, t.fields) case None => t.fields == i.fields)
      && t == i.(priority := t.priority, assigneeId := t.assigneeId, statusId := t.statusId, labels := t.labels,
                 completedAt := t.completedAt, fields := t.fields, version := t.version)
  {
    assert issues[b.id].fields + map[] == issues[b.id].fields;
  }

  lemma BulkRefused(cfg: Config, issues: Table, b: BulkItem)
    requires !BulkGoes(cfg, issues, b)
    ensures BulkApplied(cfg, issues, b) == issues
  {}

  // ---- Rules and settings

  /** Rules, security and archiving write one issue that is there; a label rule keeps its version. */
  lemma RulesMean(issues: Table, id: Id, priority: Priority, name: string, archived: bool)
    requires id in issues
    ensures OneWritten(issues, Prioritised(issues, id, priority), id)
    ensures OneWritten(issues, Secured(issues, id), id) && OneWritten(issues, Archived(issues, id, archived), id)
    ensures var i, t := issues[id], Prioritised(issues, id, priority)[id];
      t.priority == priority && t == i.(priority := t.priority, version := t.version)
    ensures var i, t := issues[id], Secured(issues, id)[id]; t == i.(version := t.version)
    ensures var i, t := issues[id], Archived(issues, id, archived)[id];
      t.archived == archived && t == i.(archived := t.archived, version := t.version)
    ensures var i, after := issues[id], Labelled(issues, id, name);
      && after.Keys == issues.Keys && (forall x <- issues :: x != id ==> after[x] == issues[x])
      && (forall l :: l in after[id].labels <==> l in i.labels || l == name)
      && after[id] == i.(labels := after[id].labels)
  {}

  /** Deleting a status changes one column, of the issues of its project that have it. */
  lemma RemappedMeans(issues: Table, project: Id, statusId: Id, replacementId: Id)
    ensures var after := Remapped(issues, project, statusId, replacementId);
      && after.Keys == issues.Keys
      && forall id <- issues ::
        && after[id] == issues[id].(statusId := after[id].statusId)
        && after[id].statusId ==
             if issues[id].project == project && issues[id].statusId == statusId then replacementId
             else issues[id].statusId
  {}

  /** Merging portal customers hands the source's requests to the target, and changes nothing else. */
  lemma MergedMeans(issues: Table, reported: set<Id>, source: Id, target: Id)
    ensures var after := Merged(issues, reported, source, target);
      && after.Keys == issues.Keys
      && forall id <- issues ::
        && after[id] == issues[id].(reporterId := after[id].reporterId)
        && after[id].reporterId ==
             if id in reported && issues[id].reporterId == source then target else issues[id].reporterId
  {}

  /** Purging removes archived issues alone; what stays loses at most a parent that went. */
  lemma PurgedMeans(issues: Table, ids: set<Id>)
    ensures var after := Purged(issues, ids);
      && (forall id :: id in after <==> id in issues && !(id in ids && issues[id].archived))
      && forall id <- after ::
        && after[id] == issues[id].(parentId := after[id].parentId)
        && after[id].parentId ==
             match issues[id].parentId
             case Some(p) => (if p in ids && p in issues && issues[p].archived then None else Some(p))
             case None => None
  {}

  // ---- Moves in the hierarchy

  /** Where a planning level says nothing, an epic stands at ten thousand. */
  ghost predicate StandsAt(p: Hierarchy.Placement, rank: int) {
    match p.level
    case Some(l) => rank == l
    case None => p.epic && rank == 10_000
  }

  ghost predicate StandsAbove(m: Hierarchy.Move, parent: Id, child: Id) {
    && parent in m.placements && child in m.placements
    && exists high, low ::
      StandsAt(m.placements[parent], high) && StandsAt(m.placements[child], low) && high < low
  }

  /** From each issue of the chain to its parent. */
  ghost predicate Ancestry(issues: Table, chain: seq<Id>) {
    && 0 < |chain|
    && forall k :: 0 <= k < |chain| - 1 ==> chain[k] in issues && issues[chain[k]].parentId == Some(chain[k + 1])
  }

  ghost predicate IsAbove(issues: Table, from: Id, target: Id) {
    exists chain :: Ancestry(issues, chain) && chain[0] == from && chain[|chain| - 1] == target
  }

  /** The chain of parents comes to an issue without one. */
  ghost predicate HasTop(issues: Table, from: Id) {
    exists chain :: EndsAtTop(issues, from, chain)
  }

  ghost predicate EndsAtTop(issues: Table, from: Id, chain: seq<Id>) {
    && Ancestry(issues, chain) && chain[0] == from
    && var last := chain[|chain| - 1];
    && (last in issues ==> issues[last].parentId == None)
  }

  lemma {:induction false} ChainOf(issues: Table, from: Id, n: nat) returns (chain: seq<Id>)
    requires Forest.Climb(Hierarchy.ParentsOf(issues), from, n).Some?
    ensures Ancestry(issues, chain) && chain[0] == from && |chain| == n + 1
    ensures Forest.Climb(Hierarchy.ParentsOf(issues), from, n) == Some(chain[n])
    decreases n
  {
    if n == 0 {
      chain := [from];
    } else {
      chain := ChainOf(issues, from, n - 1);
      chain := chain + [Forest.Climb(Hierarchy.ParentsOf(issues), from, n).value];
    }
  }

  lemma {:induction false} ClimbAlong(issues: Table, chain: seq<Id>)
    requires Ancestry(issues, chain)
    ensures Forest.Climb(Hierarchy.ParentsOf(issues), chain[0], |chain| - 1) == Some(chain[|chain| - 1])
    decreases |chain|
  {
    if |chain| > 1 { ClimbAlong(issues, chain[..|chain| - 1]); }
  }

  lemma MeetsIffAbove(issues: Table, from: Id, target: Id)
    ensures Forest.Meets(Hierarchy.ParentsOf(issues), from, target) <==> IsAbove(issues, from, target)
  {
    var p := Hierarchy.ParentsOf(issues);
    if Forest.Meets(p, from, target) {
      var n: nat :| Forest.Climb(p, from, n) == Some(target);
      var chain := ChainOf(issues, from, n);
    }
    if chain :| Ancestry(issues, chain) && chain[0] == from && chain[|chain| - 1] == target {
      ClimbAlong(issues, chain);
    }
  }

  lemma {:induction false} LastBeforeEnd(issues: Table, from: Id, n: nat) returns (m: nat)
    requires Forest.Climb(Hierarchy.ParentsOf(issues), from, n).None?
    ensures Forest.Climb(Hierarchy.ParentsOf(issues), from, m).Some?
    ensures Forest.Climb(Hierarchy.ParentsOf(issues), from, m + 1).None?
    decreases n
  {
    if Forest.Climb(Hierarchy.ParentsOf(issues), from, n - 1).Some? { m := n - 1; }
    else { m := LastBeforeEnd(issues, from, n - 1); }
  }

  lemma EndsIffTop(issues: Table, from: Id)
    ensures Forest.Ends(Hierarchy.ParentsOf(issues), from) <==> HasTop(issues, from)
  {
    var p := Hierarchy.ParentsOf(issues);
    if Forest.Ends(p, from) {
      var n: nat :| Forest.Climb(p, from, n).None?;
      var m := LastBeforeEnd(issues, from, n);
      var chain := ChainOf(issues, from, m);
      assert Forest.Step(p, chain[m]).None? && EndsAtTop(issues, from, chain);
    }
    if chain :| EndsAtTop(issues, from, chain) {
      ClimbAlong(issues, chain);
      assert Forest.Step(p, chain[|chain| - 1]).None?;
      assert Forest.Climb(p, from, |chain|).None?;
    }
  }

  /** The new parent stands above the issue, and the parents above it come to an end and are not the issue. */
  ghost predicate MayHangUnder(issues: Table, m: Hierarchy.Move, parent: Id) {
    && parent != m.issueId && StandsAbove(m, parent, m.issueId)
    && HasTop(issues, parent) && !IsAbove(issues, parent, m.issueId)
  }

  ghost predicate IsLive(issues: Table, id: Id) {
    id in issues && !issues[id].archived
  }

  /** When a move is answered how. */
  lemma MoveAnswers(issues: Table, m: Hierarchy.Move)
    ensures var status := Hierarchy.MoveStatus(issues, m);
      var found := m.permitted && IsLive(issues, m.issueId)
        && (m.parentId.Some? ==> IsLive(issues, m.parentId.value));
      && (status == 400 <==> m.version <= 0)
      && (status == 404 <==> m.version >= 1 && !found)
      && (status == 200 <==>
            (m.version >= 1 && found && m.version == issues[m.issueId].version
             && (m.parentId.Some? ==> MayHangUnder(issues, m, m.parentId.value))))
      && (status == 200 || status == 400 || status == 404 || status == 409)
  {
    if m.parentId.Some? {
      MeetsIffAbove(issues, m.parentId.value, m.issueId);
      EndsIffTop(issues, m.parentId.value);
      EligibleIff(m, m.parentId.value);
    }
  }

  lemma EligibleIff(m: Hierarchy.Move, parent: Id)
    requires m.parentId == Some(parent)
    ensures Hierarchy.Eligible(m) <==> StandsAbove(m, parent, m.issueId)
  {
    if Hierarchy.Eligible(m) {
      assert StandsAt(m.placements[parent], Hierarchy.RankOf(m, parent).value);
      assert StandsAt(m.placements[m.issueId], Hierarchy.RankOf(m, m.issueId).value);
    }
  }

  /** An accepted move writes the parent of its issue and nothing else. */
  lemma MoveMeans(issues: Table, m: Hierarchy.Move)
    requires Hierarchy.MoveStatus(issues, m) == 200
    ensures OneWritten(issues, Hierarchy.Moved(issues, m), m.issueId)
    ensures var i, t := issues[m.issueId], Hierarchy.Moved(issues, m)[m.issueId];
      t.parentId == m.parentId && t == i.(parentId := t.parentId, version := t.version)
  {}
}
