/** What runs of the same steps do to statuses and assignees: work-in-progress limits, paths through
    the configured transitions, completion times, and claims. */
module StatusRuns {
  import opened Basics
  import opened Board
  import opened IssueEdit
  import opened IssueRuns
  import opened Issues
  import opened Publications
  import opened ServiceQueues
  import opened Workflow
  import opened Wrappers
  import opened Writers
  import S = Scenarios

  // ---- Rows that stay where they are

  predicate SamePlace(a: Issue, b: Issue) {
    a.project == b.project && a.statusId == b.statusId && a.completedAt == b.completedAt
  }

  /** The steps that move no issue between statuses. */
  predicate Still(s: Step) {
    !s.Edit? && !s.Api? && !s.Bulk? && !s.Triage? && !s.DeleteStatus?
  }

  lemma StillKeepsPlace(w: World, s: Step, id: Id)
    requires Stored(w) && Still(s) && id in w.issues && id in Next(w, s).issues
    ensures SamePlace(w.issues[id], Next(w, s).issues[id])
    ensures w.issues[id].archived && !Next(w, s).issues[id].archived ==> s == Archive(id, false)
  {
    if s.Publish? && S.Published(w.issues, w.changes, s.publish).Some? {
      var c := PublishedRow(w.issues, w.changes, s.publish, id);
    }
  }

  /** A selected row that changes status was allowed to, with the row as it was before the action. */
  lemma {:induction false} ActedWasAllowed(
    cfg: Config, issues: Table, r: Reader, g: Agent, a: Action, rows: seq<QueueRow>, ids: seq<Id>, id: Id)
    requires References(cfg, r, g, a) && Distinct(ids) && forall x <- ids :: Shown(rows, x)
    requires ActedAll(cfg, issues, r, g, a, rows, ids).Some? && id in ids && id in issues && StatusMoves(issues[id], a)
    ensures !EvaluateTransition(
              cfg.transitions,
              Request(issues[id].project, issues[id].statusId, a.statusId.value, r.userId, g.workspaceRole,
                      g.projectRole, Proposed(None, Assignee(a, r.userId))),
              issues[id]).Refused?
    decreases |ids|
  {
    var front, last := ids[..|ids| - 1], ids[|ids| - 1];
    assert last in ids && forall x <- front :: x in ids;
    if id == last {
      assert id !in front;
      ActedElsewhere(cfg, issues, r, g, a, rows, front, id);
      var t := ActedAll(cfg, issues, r, g, a, rows, front).value;
      assert Actionable(cfg, t, r, g, a, ServiceQueues.RowFor(rows, id));
    } else {
      ActedWasAllowed(cfg, issues, r, g, a, rows, front, id);
    }
  }

  // ---- Paths through the configured transitions

  /** The two statuses are one, or an enabled transition of the project joins them. */
  predicate Allowed(cfg: Config, project: Id, from: Id, to: Id) {
    from == to || AnyBetween(cfg.transitions, project, from, to)
  }

  /** Where a step takes the issue without asking the transitions, if anywhere. */
  function Pushed(w: World, s: Step, id: Id): Option<Id>
    requires id in w.issues
  {
    var i := w.issues[id];
    match s
    case Api(e) => if e.id == id && ApiStatus(w.cfg, w.issues, e) == 200 then e.statusId else None
    case DeleteStatus(project, from, to) =>
      if Replaces(w.cfg.statuses, project, from, to) && i.project == project && i.statusId == from
      then Some(to)
      else None
    case _ => None
  }

  /** Where it does, a transition happens to lead there, or none is enabled in the project. */
  predicate Along(w: World, s: Step, id: Id) {
    id in w.issues && AnyEnabled(w.cfg.transitions, w.issues[id].project) && Pushed(w, s, id).Some? ==>
      Allowed(w.cfg, w.issues[id].project, w.issues[id].statusId, Pushed(w, s, id).value)
  }

  /** The step leaves the issue's status, or follows an enabled transition if any is enabled. */
  ghost predicate Follows(w: World, s: Step, id: Id) {
    id in w.issues && id in Next(w, s).issues && AnyEnabled(w.cfg.transitions, w.issues[id].project) ==>
      Allowed(w.cfg, w.issues[id].project, w.issues[id].statusId, Next(w, s).issues[id].statusId)
  }

  lemma FollowsIffAlong(w: World, s: Step, id: Id)
    requires Stored(w)
    ensures Follows(w, s, id) <==> Along(w, s, id)
  {
    if id in w.issues && id in Next(w, s).issues {
      if Still(s) {
        StillKeepsPlace(w, s, id);
      } else if s.Triage? {
        TriageFollows(w, s, id);
      }
    }
  }

  lemma TriageFollows(w: World, s: Step, id: Id)
    requires Stored(w) && s.Triage?
    ensures Follows(w, s, id)
  {
    if id in w.issues && Triaged(w.cfg, w.issues, w.snapshots, s.reader, s.agent, s.action).Some? {
      TriagedRow(w, s, id);
      if id in s.action.ids && StatusMoves(w.issues[id], s.action) {
        var rows := ReadSnapshot(w.issues, w.snapshots, s.reader).value;
        ActedWasAllowed(w.cfg, w.issues, s.reader, s.agent, s.action, rows, s.action.ids, id);
      }
    }
  }

  ghost predicate FollowsThroughout(w: World, steps: seq<Step>, id: Id)
    decreases |steps|
  {
    steps == [] || (Follows(w, steps[0], id) && FollowsThroughout(Next(w, steps[0]), steps[1..], id))
  }

  ghost predicate AlongThroughout(w: World, steps: seq<Step>, id: Id)
    decreases |steps|
  {
    steps == [] || (Along(w, steps[0], id) && AlongThroughout(Next(w, steps[0]), steps[1..], id))
  }

  /** Over any run of all writers, what an issue's status goes through is a path in the graph of the
      transitions enabled at the time, if and only if every accepted API request and every replacement of
      its status happens to go along one. */
  lemma {:induction false} StatusesFollowTransitionsIff(w: World, steps: seq<Step>, id: Id)
    requires Stored(w)
    ensures FollowsThroughout(w, steps, id) <==> AlongThroughout(w, steps, id)
    decreases |steps|
  {
    if steps != [] {
      FollowsIffAlong(w, steps[0], id);
      StepAdvances(w, steps[0]);
      StatusesFollowTransitionsIff(Next(w, steps[0]), steps[1..], id);
    }
  }

  /** The public API takes any live issue of a first version or later to any status of its project. */
  lemma ApiMovesAnywhere(w: World, id: Id, statusId: Id, now: int)
    requires id in w.issues && !w.issues[id].archived && w.issues[id].version >= 1
    requires StatusKnown(w.cfg.statuses, w.issues[id].project, statusId)
    ensures var e := ApiEdit(true, id, Some(w.issues[id].version), None, None, None, Some(statusId), now);
      && ApiStatus(w.cfg, w.issues, e) == 200
      && Next(w, Api(e)).issues[id].statusId == statusId
  {}

  // ---- Completion times

  ghost predicate Completion(cfg: Config, i: Issue) {
    i.statusId in cfg.statuses ==> (i.completedAt.Some? <==> cfg.statuses[i.statusId].category.Done?)
  }

  predicate IsDone(cfg: Config, statusId: Id) {
    statusId in cfg.statuses && cfg.statuses[statusId].category.Done?
  }

  /** Deleting or recategorising the status of the issue leaves it done, or leaves it not done. */
  predicate Harmless(w: World, s: Step, id: Id)
    requires id in w.issues
  {
    var i := w.issues[id];
    match s
    case DeleteStatus(project, statusId, replacementId) =>
      Replaces(w.cfg.statuses, project, statusId, replacementId) && i.project == project && i.statusId == statusId ==>
        (IsDone(w.cfg, statusId) <==> IsDone(w.cfg, replacementId))
    case SetCategory(project, statusId, category) =>
      StatusKnown(w.cfg.statuses, project, statusId) && i.statusId == statusId ==>
        (IsDone(w.cfg, statusId) <==> category.Done?)
    case _ => true
  }

  lemma StatusStepKeepsCompletionIff(w: World, s: Step, id: Id)
    requires Stored(w) && id in w.issues && Completion(w.cfg, w.issues[id]) && (s.DeleteStatus? || s.SetCategory?)
    ensures id in Next(w, s).issues
    ensures Completion(Next(w, s).cfg, Next(w, s).issues[id]) <==> Harmless(w, s, id)
  {}

  lemma IssueStepKeepsCompletion(w: World, s: Step, id: Id)
    requires Stored(w) && id in w.issues && id in Next(w, s).issues && Completion(w.cfg, w.issues[id])
    requires !s.DeleteStatus? && !s.SetCategory?
    ensures Completion(Next(w, s).cfg, Next(w, s).issues[id])
  {
    if Still(s) {
      StillKeepsPlace(w, s, id);
      if s.AddStatus? { assert w.issues[id].statusId in w.used; }
    } else if s.Triage? && Triaged(w.cfg, w.issues, w.snapshots, s.reader, s.agent, s.action).Some? {
      TriagedRow(w, s, id);
    }
  }

  ghost predicate CompletionThroughout(w: World, steps: seq<Step>, id: Id)
    decreases |steps|
  {
    && (id in w.issues ==> Completion(w.cfg, w.issues[id]))
    && (steps == [] || CompletionThroughout(Next(w, steps[0]), steps[1..], id))
  }

  ghost predicate HarmlessThroughout(w: World, steps: seq<Step>, id: Id)
    decreases |steps|
  {
    steps == []
    || ((id in w.issues ==> Harmless(w, steps[0], id)) && HarmlessThroughout(Next(w, steps[0]), steps[1..], id))
  }

  /** Over any run an issue stays marked as completed exactly while its status is done, if and only if no
      status it is in is replaced by, or turned into, one that differs in being done. */
  lemma {:induction false} CompletedWhileDoneIff(w: World, steps: seq<Step>, id: Id)
    requires Stored(w) && id in w.used && (id in w.issues ==> Completion(w.cfg, w.issues[id]))
    ensures CompletionThroughout(w, steps, id) <==> HarmlessThroughout(w, steps, id)
    decreases |steps|
  {
    if steps != [] {
      var s, v := steps[0], Next(w, steps[0]);
      StepAdvances(w, s);
      if id in w.issues && id in v.issues {
        if s.DeleteStatus? || s.SetCategory? {
          StatusStepKeepsCompletionIff(w, s, id);
        } else {
          IssueStepKeepsCompletion(w, s, id);
        }
      }
      if id in v.issues ==> Completion(v.cfg, v.issues[id]) {
        CompletedWhileDoneIff(v, steps[1..], id);
      } else {
        NotCompletedNow(v, steps[1..], id);
      }
    }
  }

  lemma NotCompletedNow(w: World, steps: seq<Step>, id: Id)
    requires id in w.issues && !Completion(w.cfg, w.issues[id])
    ensures !CompletionThroughout(w, steps, id)
  {}

  /** A new issue starts out so marked exactly if its first status is not a done one. */
  lemma CreatedCompletionIff(w: World, rows: Table, id: Id)
    requires Creatable(w.cfg, w.issues, w.used, rows) && id in rows
    ensures id in Next(w, Create(rows)).issues
    ensures Completion(w.cfg, Next(w, Create(rows)).issues[id]) <==> !IsDone(w.cfg, rows[id].statusId)
  {
    assert NewRow(w.cfg, w.issues + rows, id, rows[id]);
  }

  // ---- Work-in-progress limits

  /** An issue of the project that the status does not count. */
  predicate Outside(w: World, id: Id, project: Id, statusId: Id) {
    && id in w.issues && w.issues[id].project == project
    && (w.issues[id].archived || w.issues[id].statusId != statusId)
  }

  /** How many issues a step brings into the status without asking for its limit. */
  function Newcomers(w: World, s: Step, project: Id, statusId: Id): nat {
    match s
    case Create(rows) =>
      if Creatable(w.cfg, w.issues, w.used, rows) then Count(rows, project, statusId) else 0
    case Archive(id, archived) =>
      if Outside(w, id, project, statusId) && !archived && w.issues[id].statusId == statusId then 1 else 0
    case Api(e) =>
      if ApiStatus(w.cfg, w.issues, e) == 200 && Outside(w, e.id, project, statusId) && e.statusId == Some(statusId)
      then 1
      else 0
    case DeleteStatus(p, from, to) =>
      if Replaces(w.cfg.statuses, p, from, to) && p == project && to == statusId
      then Count(w.issues, project, from)
      else 0
    case _ => 0
  }

  lemma StillKeepsCount(w: World, s: Step, project: Id, statusId: Id)
    requires Stored(w) && Still(s) && !s.Create? && !s.Archive?
    ensures Count(Next(w, s).issues, project, statusId) <= Count(w.issues, project, statusId)
  {
    StepAdvances(w, s);
    var a, b := Here(Next(w, s).issues, project, statusId), Here(w.issues, project, statusId);
    forall id <- a ensures id in b {
      NothingNew(w, s, id);
      StillKeepsPlace(w, s, id);
    }
    SubsetSize(a, b);
  }

  lemma NothingNew(w: World, s: Step, id: Id)
    requires Stored(w) && !s.Create? && id in Next(w, s).issues
    ensures id in w.issues
  {
    if s.Publish? && S.Published(w.issues, w.changes, s.publish).Some? {
      assert Next(w, s).issues.Keys == w.issues.Keys;
    }
  }

  /** `after` is `before` with exactly `n` issues more in the status, or with at most as many if `n` is 0. */
  ghost predicate Grown(before: Table, after: Table, project: Id, statusId: Id, n: nat) {
    && Count(after, project, statusId) <= Count(before, project, statusId) + n
    && (n > 0 ==> Count(after, project, statusId) == Count(before, project, statusId) + n)
  }

  lemma GrownBy(before: Table, after: Table, project: Id, statusId: Id, more: set<Id>)
    requires Here(after, project, statusId) == Here(before, project, statusId) + more
    requires more !! Here(before, project, statusId)
    ensures Grown(before, after, project, statusId, |more|)
  {}

  lemma NotGrown(before: Table, after: Table, project: Id, statusId: Id)
    requires Here(after, project, statusId) <= Here(before, project, statusId)
    ensures Grown(before, after, project, statusId, 0)
  {
    SubsetSize(Here(after, project, statusId), Here(before, project, statusId));
  }

  lemma CreateCounts(w: World, s: Step, project: Id, statusId: Id)
    requires Stored(w) && s.Create?
    ensures Grown(w.issues, Next(w, s).issues, project, statusId, Newcomers(w, s, project, statusId))
  {
    if Creatable(w.cfg, w.issues, w.used, s.rows) {
      var more := Here(s.rows, project, statusId);
      forall id <- s.rows ensures id !in w.issues { assert id !in w.used; }
      assert Here(w.issues + s.rows, project, statusId) == Here(w.issues, project, statusId) + more;
      GrownBy(w.issues, w.issues + s.rows, project, statusId, more);
    }
  }

  lemma ArchiveCounts(w: World, s: Step, project: Id, statusId: Id)
    requires Stored(w) && s.Archive?
    ensures Grown(w.issues, Next(w, s).issues, project, statusId, Newcomers(w, s, project, statusId))
  {
    var v := Next(w, s);
    if Newcomers(w, s, project, statusId) == 0 {
      assert Here(v.issues, project, statusId) <= Here(w.issues, project, statusId);
      NotGrown(w.issues, v.issues, project, statusId);
    } else {
      assert Here(v.issues, project, statusId) == Here(w.issues, project, statusId) + {s.id};
      GrownBy(w.issues, v.issues, project, statusId, {s.id});
    }
  }

  lemma DeletionCounts(w: World, s: Step, project: Id, statusId: Id)
    requires Stored(w) && s.DeleteStatus?
    ensures Grown(w.issues, Next(w, s).issues, project, statusId, Newcomers(w, s, project, statusId))
  {
    var v := Next(w, s);
    if Replaces(w.cfg.statuses, s.project, s.statusId, s.replacementId) && s.project == project
       && s.replacementId == statusId
    {
      var more := Here(w.issues, project, s.statusId);
      assert Here(v.issues, project, statusId) == Here(w.issues, project, statusId) + more;
      GrownBy(w.issues, v.issues, project, statusId, more);
    } else {
      assert Here(v.issues, project, statusId) <= Here(w.issues, project, statusId);
      NotGrown(w.issues, v.issues, project, statusId);
    }
  }

  lemma {:induction false} ActedKeepsLimit(
    cfg: Config, issues: Table, r: Reader, g: Agent, a: Action, rows: seq<QueueRow>, ids: seq<Id>,
    project: Id, statusId: Id)
    requires References(cfg, r, g, a) && forall x <- ids :: Shown(rows, x)
    requires ActedAll(cfg, issues, r, g, a, rows, ids).Some?
    requires LimitOf(cfg.columns, project, statusId).Some? && LimitOf(cfg.columns, project, statusId).value != 0
    ensures Count(ActedAll(cfg, issues, r, g, a, rows, ids).value, project, statusId)
      <= Max(Count(issues, project, statusId), LimitOf(cfg.columns, project, statusId).value)
    decreases |ids|
  {
    if ids != [] {
      var front, id := ids[..|ids| - 1], ids[|ids| - 1];
      assert id in ids && forall x <- front :: x in ids;
      ActedKeepsLimit(cfg, issues, r, g, a, rows, front, project, statusId);
      var before := ActedAll(cfg, issues, r, g, a, rows, front).value;
      assert Actionable(cfg, before, r, g, a, ServiceQueues.RowFor(rows, id));
      MoveCounts(before, ActedAll(cfg, issues, r, g, a, rows, ids).value, id, project, statusId);
    }
  }

  lemma GuardedKeepsLimit(w: World, s: Step, project: Id, statusId: Id)
    requires Stored(w) && (s.Edit? || s.Bulk? || s.Triage?)
    requires LimitOf(w.cfg.columns, project, statusId).Some? && LimitOf(w.cfg.columns, project, statusId).value != 0
    ensures Count(Next(w, s).issues, project, statusId)
      <= Max(Count(w.issues, project, statusId), LimitOf(w.cfg.columns, project, statusId).value)
  {
    match s
    case Edit(e) =>
      if PatchStatus(w.cfg, w.issues, e) == 200 {
        MoveCounts(w.issues, PatchedTable(w.cfg, w.issues, e), e.id, project, statusId);
      }
    case Bulk(b) =>
      if BulkGoes(w.cfg, w.issues, b) {
        MoveCounts(w.issues, BulkApplied(w.cfg, w.issues, b), b.id, project, statusId);
      }
    case Triage(r, g, a) =>
      if Triaged(w.cfg, w.issues, w.snapshots, r, g, a).Some? {
        var rows := ReadSnapshot(w.issues, w.snapshots, r).value;
        ActedKeepsLimit(w.cfg, w.issues, r, g, a, rows, a.ids, project, statusId);
      }
  }

  lemma ApiCounts(w: World, s: Step, project: Id, statusId: Id)
    requires Stored(w) && s.Api?
    ensures Grown(w.issues, Next(w, s).issues, project, statusId, Newcomers(w, s, project, statusId))
  {
    var v := Next(w, s);
    if Newcomers(w, s, project, statusId) == 0 {
      assert Here(v.issues, project, statusId) <= Here(w.issues, project, statusId);
      NotGrown(w.issues, v.issues, project, statusId);
    } else {
      assert Here(v.issues, project, statusId) == Here(w.issues, project, statusId) + {s.api.id};
      GrownBy(w.issues, v.issues, project, statusId, {s.api.id});
    }
  }

  /** A step that asks keeps within the limit or the count there was; any other adds exactly its newcomers. */
  lemma StepKeepsLimit(w: World, s: Step, project: Id, statusId: Id)
    requires Stored(w) && Storable(w.cfg.columns) && LimitOf(w.cfg.columns, project, statusId).Some?
    ensures var before, after := Count(w.issues, project, statusId), Count(Next(w, s).issues, project, statusId);
      var n := Newcomers(w, s, project, statusId);
      && after <= Max(before, LimitOf(w.cfg.columns, project, statusId).value) + n
      && (n > 0 ==> after == before + n)
  {
    StorableLimit(w.cfg.columns, project, statusId);
    if s.Create? { CreateCounts(w, s, project, statusId); }
    else if s.Archive? { ArchiveCounts(w, s, project, statusId); }
    else if s.DeleteStatus? { DeletionCounts(w, s, project, statusId); }
    else if s.Api? { ApiCounts(w, s, project, statusId); }
    else if s.Edit? || s.Bulk? || s.Triage? { GuardedKeepsLimit(w, s, project, statusId); }
    else { StillKeepsCount(w, s, project, statusId); }
  }

  lemma StepStaysStorable(w: World, s: Step)
    requires Storable(w.cfg.columns)
    ensures Storable(Next(w, s).cfg.columns)
  {
    if s.EditColumn? { EditsStayStorable(w.cfg.columns, s.project, s.columnId, s.nameOk, s.input); }
  }

  /** All along the run the status has a limit, of at most `cap`. */
  ghost predicate CappedThroughout(w: World, steps: seq<Step>, project: Id, statusId: Id, cap: int)
    decreases |steps|
  {
    steps == []
    || (&& LimitOf(w.cfg.columns, project, statusId).Some? && LimitOf(w.cfg.columns, project, statusId).value <= cap
        && CappedThroughout(Next(w, steps[0]), steps[1..], project, statusId, cap))
  }

  ghost function TotalNewcomers(w: World, steps: seq<Step>, project: Id, statusId: Id): nat
    decreases |steps|
  {
    if steps == [] then 0
    else Newcomers(w, steps[0], project, statusId) + TotalNewcomers(Next(w, steps[0]), steps[1..], project, statusId)
  }

  /** For every configuration the editor can store and over any run, limits edited along the way included:
      a count passes the limits in force, or where it started above them, by no more than the number of
      issues that were brought in without asking for the limit. */
  lemma {:induction false} LimitsHold(w: World, steps: seq<Step>, project: Id, statusId: Id, cap: int)
    requires Stored(w) && Storable(w.cfg.columns) && CappedThroughout(w, steps, project, statusId, cap)
    ensures Count(Run(w, steps).issues, project, statusId)
      <= Max(Count(w.issues, project, statusId), cap) + TotalNewcomers(w, steps, project, statusId)
    decreases |steps|
  {
    if steps != [] {
      StepKeepsLimit(w, steps[0], project, statusId);
      StepAdvances(w, steps[0]);
      StepStaysStorable(w, steps[0]);
      LimitsHold(Next(w, steps[0]), steps[1..], project, statusId, cap);
    }
  }

  ghost predicate WithinThroughout(w: World, steps: seq<Step>, project: Id, statusId: Id, cap: int)
    decreases |steps|
  {
    && Count(w.issues, project, statusId) <= cap
    && (steps == [] || WithinThroughout(Next(w, steps[0]), steps[1..], project, statusId, cap))
  }

  /** Whatever brings issues in without asking finds room for all of them. */
  predicate Room(w: World, s: Step, project: Id, statusId: Id, cap: int) {
    var n := Newcomers(w, s, project, statusId);
    n == 0 || Count(w.issues, project, statusId) + n <= cap
  }

  ghost predicate RoomThroughout(w: World, steps: seq<Step>, project: Id, statusId: Id, cap: int)
    decreases |steps|
  {
    steps == []
    || (Room(w, steps[0], project, statusId, cap)
        && RoomThroughout(Next(w, steps[0]), steps[1..], project, statusId, cap))
  }

  /** A count that starts within a cap on the limits in force stays within it all along a run, if and only
      if all that comes in without asking finds room. */
  lemma {:induction false} LimitsHoldIff(w: World, steps: seq<Step>, project: Id, statusId: Id, cap: int)
    requires Stored(w) && Storable(w.cfg.columns) && CappedThroughout(w, steps, project, statusId, cap)
    requires Count(w.issues, project, statusId) <= cap
    ensures WithinThroughout(w, steps, project, statusId, cap) <==> RoomThroughout(w, steps, project, statusId, cap)
    decreases |steps|
  {
    if steps != [] {
      StepKeepsLimit(w, steps[0], project, statusId);
      if Room(w, steps[0], project, statusId, cap) {
        StepAdvances(w, steps[0]);
        StepStaysStorable(w, steps[0]);
        LimitsHoldIff(Next(w, steps[0]), steps[1..], project, statusId, cap);
      }
    }
  }

  /** A full column takes any new issue, ... */
  lemma CreationPassesLimit(w: World, id: Id, row: Issue)
    requires Stored(w) && id !in w.used && NewRow(w.cfg, w.issues, id, row) && row.parentId.None?
    requires LimitOf(w.cfg.columns, row.project, row.statusId) == Some(Count(w.issues, row.project, row.statusId))
    ensures Creatable(w.cfg, w.issues, w.used, map[id := row])
    ensures Count(Next(w, Create(map[id := row])).issues, row.project, row.statusId)
      == LimitOf(w.cfg.columns, row.project, row.statusId).value + 1
  {
    var rows := map[id := row];
    assert NewRow(w.cfg, w.issues + rows, id, row);
    assert Here(rows, row.project, row.statusId) == {id};
    CreateCounts(w, Create(rows), row.project, row.statusId);
  }

  /** ... and any live issue that the public API moves into it. */
  lemma ApiPassesLimit(w: World, id: Id, statusId: Id, now: int)
    requires Stored(w) && id in w.issues && !w.issues[id].archived && w.issues[id].version >= 1
    requires StatusKnown(w.cfg.statuses, w.issues[id].project, statusId) && w.issues[id].statusId != statusId
    requires LimitOf(w.cfg.columns, w.issues[id].project, statusId)
      == Some(Count(w.issues, w.issues[id].project, statusId))
    ensures var e := ApiEdit(true, id, Some(w.issues[id].version), None, None, None, Some(statusId), now);
      && ApiStatus(w.cfg, w.issues, e) == 200
      && Count(Next(w, Api(e)).issues, w.issues[id].project, statusId)
         == LimitOf(w.cfg.columns, w.issues[id].project, statusId).value + 1
  {
    var e := ApiEdit(true, id, Some(w.issues[id].version), None, None, None, Some(statusId), now);
    ApiMovesAnywhere(w, id, statusId, now);
    ApiCounts(w, Api(e), w.issues[id].project, statusId);
  }

  // ---- Claims

  ghost predicate Claims(w: World, s: Step, id: Id) {
    && s.Triage? && s.action.claim && id in s.action.ids
    && Triaged(w.cfg, w.issues, w.snapshots, s.reader, s.agent, s.action).Some?
  }

  predicate Unassigned(w: World, id: Id) {
    id in w.issues && w.issues[id].assigneeId.None?
  }

  ghost predicate Frees(w: World, s: Step, id: Id) {
    !Unassigned(w, id) && Unassigned(Next(w, s), id)
  }

  ghost function ClaimCount(w: World, steps: seq<Step>, id: Id): nat
    decreases |steps|
  {
    if steps == [] then 0
    else (if Claims(w, steps[0], id) then 1 else 0) + ClaimCount(Next(w, steps[0]), steps[1..], id)
  }

  ghost function FreeCount(w: World, steps: seq<Step>, id: Id): nat
    decreases |steps|
  {
    if steps == [] then 0
    else (if Frees(w, steps[0], id) then 1 else 0) + FreeCount(Next(w, steps[0]), steps[1..], id)
  }

  lemma ClaimTakesUnassigned(w: World, s: Step, id: Id)
    requires Claims(w, s, id)
    ensures Unassigned(w, id) && !Unassigned(Next(w, s), id)
  {
    var rows := ReadSnapshot(w.issues, w.snapshots, s.reader).value;
    ActedOnce(w.cfg, w.issues, s.reader, s.agent, s.action, rows, s.action.ids, id);
  }

  /** From any snapshots, by any users: a request is claimed at most once more than it becomes unassigned,
      and not even that often if it starts out assigned. */
  lemma {:induction false} ClaimsAreExclusive(w: World, steps: seq<Step>, id: Id)
    ensures ClaimCount(w, steps, id) <= FreeCount(w, steps, id) + if Unassigned(w, id) then 1 else 0
    decreases |steps|
  {
    if steps != [] {
      var s := steps[0];
      if Claims(w, s, id) { ClaimTakesUnassigned(w, s, id); }
      ClaimsAreExclusive(Next(w, s), steps[1..], id);
    }
  }
}
