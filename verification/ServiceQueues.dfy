/** Service queues: snapshots of the issues a queue showed, and triage actions that apply to
    rows of a snapshot all together or not at all. */
module ServiceQueues {
  import opened Board
  import opened IssueEdit
  import opened Issues
  import opened Workflow
  import opened Wrappers

  datatype QueueRow = QueueRow(
    id: Id, version: nat, summary: string, priority: Priority, statusId: Id, assigneeId: Option<Id>)

  datatype Snapshot = Snapshot(
    id: Id, queueId: Id, queueVersion: nat, userId: Id, rows: seq<QueueRow>, expiresAt: int)

  const MAX_ROWS := 2_000
  const MAX_ACTIVE := 30
  const LIFETIME := 5 * 60_000

  // ---- Taking a snapshot

  function RowOf(id: Id, i: Issue): QueueRow {
    QueueRow(id, i.version, i.summary, i.priority, i.statusId, i.assigneeId)
  }

  /** The issues the queue's query found, in its order. */
  datatype Take = Take(queueId: Id, queueVersion: nat, userId: Id, found: seq<Id>, now: int, newId: Id)

  function RowsOf(issues: Table, found: seq<Id>): (r: seq<QueueRow>)
    requires forall id <- found :: id in issues
    ensures |r| == |found| && forall i :: 0 <= i < |r| ==> r[i] == RowOf(found[i], issues[found[i]])
  {
    seq(|found|, i requires 0 <= i < |found| => assert found[i] in found; RowOf(found[i], issues[found[i]]))
  }

  function Active(snapshots: seq<Snapshot>, queueId: Id, userId: Id, now: int): nat {
    if snapshots == [] then 0
    else
      (if snapshots[0].queueId == queueId && snapshots[0].userId == userId && snapshots[0].expiresAt > now
       then 1
       else 0)
         + Active(snapshots[1..], queueId, userId, now)
  }

  function Unexpired(snapshots: seq<Snapshot>, queueId: Id, userId: Id, now: int): (r: seq<Snapshot>)
    ensures forall s <- r :: s in snapshots
  {
    if snapshots == [] then []
    else
      var rest := Unexpired(snapshots[1..], queueId, userId, now);
      var s := snapshots[0];
      if s.queueId == queueId && s.userId == userId && s.expiresAt < now then rest else [s] + rest
  }

  function Taken(issues: Table, snapshots: seq<Snapshot>, t: Take): seq<Snapshot> {
    if !(forall id <- t.found :: id in issues) || Active(snapshots, t.queueId, t.userId, t.now) >= MAX_ACTIVE
       || |t.found| > MAX_ROWS
    then snapshots
    else
      Unexpired(snapshots, t.queueId, t.userId, t.now)
      + [Snapshot(t.newId, t.queueId, t.queueVersion, t.userId, RowsOf(issues, t.found), t.now + LIFETIME)]
  }

  // ---- Reading a snapshot

  /** The current reader: `queueVersion` is the queue's own, `visible` the issues the user may see. */
  datatype Reader = Reader(
    snapshotId: Id, queueId: Id, userId: Id, queueVersion: nat, project: Id, visible: set<Id>, now: int)

  predicate Fresh(issues: Table, r: Reader, row: QueueRow) {
    && row.id in issues && row.id in r.visible && issues[row.id].project == r.project && !issues[row.id].archived
    && issues[row.id].version == row.version
  }

  predicate Meant(s: Snapshot, r: Reader) {
    s.id == r.snapshotId && s.queueId == r.queueId && s.userId == r.userId && s.expiresAt > r.now
  }

  function ReadSnapshot(issues: Table, snapshots: seq<Snapshot>, r: Reader): (rows: Option<seq<QueueRow>>)
    ensures rows.Some? ==>
      exists s <- snapshots :: Meant(s, r) && s.queueVersion == r.queueVersion && s.rows == rows.value
    ensures rows.Some? ==> forall row <- rows.value :: Fresh(issues, r, row)
  {
    if snapshots == [] then None
    else if Meant(snapshots[0], r) then
      if snapshots[0].queueVersion != r.queueVersion || exists row <- snapshots[0].rows :: !Fresh(issues, r, row)
      then None else Some(snapshots[0].rows)
    else ReadSnapshot(issues, snapshots[1..], r)
  }

  predicate Agrees(row: QueueRow, i: Issue) {
    && row.version == i.version && row.summary == i.summary && row.priority == i.priority
    && row.assigneeId == i.assigneeId
  }

  /** A row about an issue that is still there says the truth about it or is older than it; its status is
      the issue's unless the status is gone. */
  ghost predicate RowFaithful(statuses: set<Id>, issues: Table, row: QueueRow) {
    row.id in issues ==>
      && row.version <= issues[row.id].version
      && (row.version == issues[row.id].version ==>
            Agrees(row, issues[row.id]) && (row.statusId in statuses ==> row.statusId == issues[row.id].statusId))
  }

  /** `used` are the ids that were ever given out. */
  ghost predicate AllFaithful(used: set<Id>, statuses: set<Id>, issues: Table, snapshots: seq<Snapshot>) {
    forall s <- snapshots, row <- s.rows ::
      row.id in used && row.statusId in used && RowFaithful(statuses, issues, row)
  }

  /** Every issue has a status that is there. */
  ghost predicate StatusesStored(statuses: set<Id>, issues: Table) {
    forall id <- issues :: issues[id].statusId in statuses
  }

  lemma TakenFaithful(used: set<Id>, statuses: set<Id>, issues: Table, snapshots: seq<Snapshot>, t: Take)
    requires AllFaithful(used, statuses, issues, snapshots)
    requires issues.Keys <= used && statuses <= used && StatusesStored(statuses, issues)
    ensures AllFaithful(used, statuses, issues, Taken(issues, snapshots, t))
  {
    var taken := Taken(issues, snapshots, t);
    forall s <- taken, row <- s.rows
      ensures row.id in used && row.statusId in used && RowFaithful(statuses, issues, row)
    {
      if s !in snapshots {
        var k :| 0 <= k < |s.rows| && s.rows[k] == row;
        assert row == RowOf(t.found[k], issues[t.found[k]]) && t.found[k] in t.found;
      }
    }
  }

  /** Rows stay faithful under disciplined writers that give no id out twice. */
  lemma FaithfulUnder(
    used: set<Id>, before: set<Id>, issues: Table, after: set<Id>, later: Table, snapshots: seq<Snapshot>)
    requires AllFaithful(used, before, issues, snapshots) && Disciplined(issues, after, later)
    requires (forall id <- later :: id in used ==> id in issues) && forall id <- after :: id in used ==> id in before
    ensures AllFaithful(used, after, later, snapshots)
  {
    forall s <- snapshots, row <- s.rows
      ensures row.id in used && row.statusId in used && RowFaithful(after, later, row)
    {
      assert RowFaithful(before, issues, row);
      if row.id in later { assert row.id in issues; }
    }
  }

  /** Every row of a snapshot that is served agrees with the live issue on version, summary, priority and
      assignee, and shows its status exactly when the status it shows still exists. */
  lemma ServedRowsAgree(used: set<Id>, statuses: set<Id>, issues: Table, snapshots: seq<Snapshot>, r: Reader)
    requires AllFaithful(used, statuses, issues, snapshots) && StatusesStored(statuses, issues)
    requires ReadSnapshot(issues, snapshots, r).Some?
    ensures forall row <- ReadSnapshot(issues, snapshots, r).value ::
      && row.id in issues && Agrees(row, issues[row.id])
      && (row.statusId == issues[row.id].statusId <==> row.statusId in statuses)
  {
    var rows := ReadSnapshot(issues, snapshots, r).value;
    var s :| s in snapshots && s.rows == rows;
    forall row <- rows
      ensures row.id in issues && Agrees(row, issues[row.id])
      ensures row.statusId == issues[row.id].statusId <==> row.statusId in statuses
    {
      assert row in s.rows && RowFaithful(statuses, issues, row) && Fresh(issues, r, row);
    }
  }

  // ---- Triage

  /** What to do to the selected requests; an outer None is an absent key.  `fieldsOk` lists the issues
      whose custom field values suit the new request type. */
  datatype Action = Action(
    ids: seq<Id>, claim: bool, assigneeId: Option<Option<Id>>, priority: Option<Priority>, statusId: Option<Id>,
    requestTypeId: Option<Id>, participants: bool, participantsOk: bool, fieldsOk: set<Id>)

  /** Who acts: role names, the project's active agents and its published request types. */
  datatype Agent = Agent(
    workspaceRole: Role, projectRole: Option<Role>, agents: set<Id>, requestTypes: map<Id, Id>)

  predicate Distinct(ids: seq<Id>) {
    forall i, j :: 0 <= i < j < |ids| ==> ids[i] != ids[j]
  }

  predicate Shown(rows: seq<QueueRow>, id: Id) {
    exists row <- rows :: row.id == id
  }

  /** The first row with the id. */
  function RowFor(rows: seq<QueueRow>, id: Id): (row: QueueRow)
    requires Shown(rows, id)
    ensures row in rows && row.id == id
  {
    if rows[0].id == id then rows[0] else RowFor(rows[1..], id)
  }

  /** The assignee the action asks for: the acting user for a claim. */
  function Assignee(a: Action, userId: Id): Option<Option<Id>> {
    if a.claim then Some(Some(userId)) else a.assigneeId
  }

  predicate WellFormed(a: Action, rows: seq<QueueRow>) {
    && 0 < |a.ids| <= 100 && Distinct(a.ids) && (forall id <- a.ids :: Shown(rows, id))
    && (a.claim || a.assigneeId.Some? || a.priority.Some? || a.statusId.Some? || a.requestTypeId.Some?
        || a.participants)
    && !(a.claim && a.assigneeId.Some?)
  }

  predicate References(cfg: Config, r: Reader, g: Agent, a: Action) {
    && (Assignee(a, r.userId).Some? && Assignee(a, r.userId).value.Some? ==>
          Assignee(a, r.userId).value.value in g.agents)
    && (a.statusId.Some? ==> StatusKnown(cfg.statuses, r.project, a.statusId.value))
    && (a.requestTypeId.Some? ==> a.requestTypeId.value in g.requestTypes)
    && (a.participants ==> a.participantsOk)
  }

  predicate StatusMoves(i: Issue, a: Action) {
    a.statusId.Some? && a.statusId.value != i.statusId
  }

  /** Transitions with effects are left to the issue editor. */
  predicate MoveAllowed(cfg: Config, issues: Table, r: Reader, g: Agent, a: Action, id: Id)
    requires id in issues && a.statusId.Some?
  {
    var i := issues[id];
    var verdict := EvaluateTransition(
      cfg.transitions,
      Request(i.project, i.statusId, a.statusId.value, r.userId, g.workspaceRole, g.projectRole,
              Proposed(None, Assignee(a, r.userId))),
      i);
    && !verdict.Refused? && (verdict.Takes? ==> verdict.transition.actions == [])
    && !WipReached(cfg, issues, i.project, a.statusId.value)
  }

  predicate Reclassifies(i: Issue, g: Agent, a: Action) {
    && a.requestTypeId.Some? && a.requestTypeId.value in g.requestTypes
    && g.requestTypes[a.requestTypeId.value] != i.issueTypeId
  }

  predicate Actionable(cfg: Config, issues: Table, r: Reader, g: Agent, a: Action, row: QueueRow) {
    && Fresh(issues, r, row)
    && (a.claim ==> issues[row.id].assigneeId.None?)
    && (StatusMoves(issues[row.id], a) ==> MoveAllowed(cfg, issues, r, g, a, row.id))
    && (Reclassifies(issues[row.id], g, a) ==> row.id in a.fieldsOk)
  }

  function Acted(cfg: Config, i: Issue, r: Reader, g: Agent, a: Action): Issue
    requires References(cfg, r, g, a)
  {
    i.(version := i.version + 1,
       assigneeId := Assignee(a, r.userId).GetOr(i.assigneeId),
       priority := a.priority.GetOr(i.priority),
       statusId := if StatusMoves(i, a) then a.statusId.value else i.statusId,
       completedAt := if StatusMoves(i, a) then CompletionTime(cfg, a.statusId.value, r.now) else i.completedAt,
       issueTypeId := if Reclassifies(i, g, a) then g.requestTypes[a.requestTypeId.value] else i.issueTypeId)
  }

  /** The transaction over the selected ids in order, or None when one of them does not go through. */
  function ActedAll(
    cfg: Config, issues: Table, r: Reader, g: Agent, a: Action, rows: seq<QueueRow>, ids: seq<Id>)
    : (t: Option<Table>)
    requires References(cfg, r, g, a) && forall id <- ids :: Shown(rows, id)
    ensures t.Some? ==> t.value.Keys == issues.Keys
    decreases |ids|
  {
    if ids == [] then Some(issues)
    else
      var id := ids[|ids| - 1];
      assert id in ids && forall x <- ids[..|ids| - 1] :: x in ids;
      match ActedAll(cfg, issues, r, g, a, rows, ids[..|ids| - 1])
      case None => None
      case Some(t) =>
        if Actionable(cfg, t, r, g, a, RowFor(rows, id)) then Some(t[id := Acted(cfg, t[id], r, g, a)]) else None
  }

  /** The table after the action, or None when it is refused. */
  function Triaged(
    cfg: Config, issues: Table, snapshots: seq<Snapshot>, r: Reader, g: Agent, a: Action): Option<Table>
  {
    match ReadSnapshot(issues, snapshots, r)
    case None => None
    case Some(rows) =>
      if !WellFormed(a, rows) || !References(cfg, r, g, a) then None
      else ActedAll(cfg, issues, r, g, a, rows, a.ids)
  }

  class QueueDesk {
    var issues: Table
    var snapshots: seq<Snapshot>

    constructor (issues: Table)
      ensures this.issues == issues && snapshots == []
    {
      this.issues, snapshots := issues, [];
    }

    method CreateQueueSnapshot(t: Take) returns (ok: bool)
      requires forall id <- t.found :: id in issues
      modifies this`snapshots
      ensures snapshots == Taken(issues, old(snapshots), t)
      ensures ok <==> Active(old(snapshots), t.queueId, t.userId, t.now) < MAX_ACTIVE && |t.found| <= MAX_ROWS
    {
      if Active(snapshots, t.queueId, t.userId, t.now) >= MAX_ACTIVE || |t.found| > MAX_ROWS { return false; }
      var rows: seq<QueueRow> := [];
      for i := 0 to |t.found|
        invariant rows == RowsOf(issues, t.found)[..i]
      {
        assert t.found[i] in t.found;
        rows := rows + [RowOf(t.found[i], issues[t.found[i]])];
      }
      assert rows == RowsOf(issues, t.found);
      snapshots := Unexpired(snapshots, t.queueId, t.userId, t.now);
      snapshots := snapshots + [Snapshot(t.newId, t.queueId, t.queueVersion, t.userId, rows, t.now + LIFETIME)];
      ok := true;
    }

    /** Works on a copy of the table that replaces it only when every selected request went through. */
    method ApplyQueueAction(cfg: Config, r: Reader, g: Agent, a: Action) returns (ok: bool)
      modifies this`issues
      ensures ok <==> Triaged(cfg, old(issues), snapshots, r, g, a).Some?
      ensures issues == if ok then Triaged(cfg, old(issues), snapshots, r, g, a).value else old(issues)
    {
      var read := ReadSnapshot(issues, snapshots, r);
      if read.None? { return false; }
      var rows := read.value;
      if !WellFormed(a, rows) || !References(cfg, r, g, a) { return false; }
      var outcome := ActOnRows(cfg, r, g, a, rows);
      if outcome.None? { return false; }
      issues := outcome.value;
      ok := true;
    }

    method ActOnRows(cfg: Config, r: Reader, g: Agent, a: Action, rows: seq<QueueRow>) returns (outcome: Option<Table>)
      requires References(cfg, r, g, a) && forall id <- a.ids :: Shown(rows, id)
      ensures outcome == ActedAll(cfg, issues, r, g, a, rows, a.ids)
    {
      var table := issues;
      for i := 0 to |a.ids|
        invariant ActedAll(cfg, issues, r, g, a, rows, a.ids[..i]) == Some(table)
      {
        var id := a.ids[i];
        assert id in a.ids && a.ids[..i + 1][..i] == a.ids[..i];
        var row := RowFor(rows, id);
        if !Actionable(cfg, table, r, g, a, row) {
          ActedFails(cfg, issues, r, g, a, rows, a.ids, i + 1);
          return None;
        }
        table := table[id := Acted(cfg, table[id], r, g, a)];
      }
      assert a.ids[..|a.ids|] == a.ids;
      outcome := Some(table);
    }
  }

  lemma {:induction false} ActedFails(
    cfg: Config, issues: Table, r: Reader, g: Agent, a: Action, rows: seq<QueueRow>, ids: seq<Id>, n: nat)
    requires References(cfg, r, g, a) && forall id <- ids :: Shown(rows, id)
    requires n <= |ids| && ActedAll(cfg, issues, r, g, a, rows, ids[..n]).None?
    ensures ActedAll(cfg, issues, r, g, a, rows, ids).None?
    decreases |ids|
  {
    if n < |ids| {
      assert ids[..|ids| - 1][..n] == ids[..n];
      assert forall x <- ids[..|ids| - 1] :: x in ids;
      ActedFails(cfg, issues, r, g, a, rows, ids[..|ids| - 1], n);
    } else {
      assert ids[..n] == ids;
    }
  }

  /** Acting on other issues leaves a row alone. */
  lemma {:induction false} ActedElsewhere(
    cfg: Config, issues: Table, r: Reader, g: Agent, a: Action, rows: seq<QueueRow>, ids: seq<Id>, id: Id)
    requires References(cfg, r, g, a) && forall x <- ids :: Shown(rows, x)
    requires ActedAll(cfg, issues, r, g, a, rows, ids).Some? && id in issues && id !in ids
    ensures ActedAll(cfg, issues, r, g, a, rows, ids).value[id] == issues[id]
    decreases |ids|
  {
    if ids != [] {
      assert ids[|ids| - 1] in ids && forall x <- ids[..|ids| - 1] :: x in ids;
      ActedElsewhere(cfg, issues, r, g, a, rows, ids[..|ids| - 1], id);
    }
  }

  /** A selected issue was fresh at the start and ends as the action makes it. */
  lemma {:induction false} ActedOnce(
    cfg: Config, issues: Table, r: Reader, g: Agent, a: Action, rows: seq<QueueRow>, ids: seq<Id>, id: Id)
    requires References(cfg, r, g, a) && Distinct(ids) && forall x <- ids :: Shown(rows, x)
    requires ActedAll(cfg, issues, r, g, a, rows, ids).Some? && id in ids
    ensures id in issues && Fresh(issues, r, RowFor(rows, id)) && (a.claim ==> issues[id].assigneeId.None?)
    ensures ActedAll(cfg, issues, r, g, a, rows, ids).value[id] == Acted(cfg, issues[id], r, g, a)
    decreases |ids|
  {
    var front, last := ids[..|ids| - 1], ids[|ids| - 1];
    assert last in ids && forall x <- front :: x in ids;
    if id == last {
      assert id !in front;
      ActedElsewhere(cfg, issues, r, g, a, rows, front, id);
    } else {
      ActedOnce(cfg, issues, r, g, a, rows, front, id);
    }
  }

  /** An action either changes nothing or advances every selected request by exactly one version from
      its snapshot row and touches no other issue; a claim hands unassigned requests to the actor. */
  lemma TriageIsAllOrNothing(cfg: Config, issues: Table, snapshots: seq<Snapshot>, r: Reader, g: Agent, a: Action)
    requires Triaged(cfg, issues, snapshots, r, g, a).Some?
    ensures var rows, t := ReadSnapshot(issues, snapshots, r).value, Triaged(cfg, issues, snapshots, r, g, a).value;
      && t.Keys == issues.Keys
      && (forall id <- a.ids :: id in issues && Shown(rows, id)
            && t[id].version == RowFor(rows, id).version + 1 == issues[id].version + 1
            && (a.claim ==> issues[id].assigneeId.None? && t[id].assigneeId == Some(r.userId)))
      && (forall id <- issues :: id !in a.ids ==> t[id] == issues[id])
  {
    var rows := ReadSnapshot(issues, snapshots, r).value;
    var t := Triaged(cfg, issues, snapshots, r, g, a).value;
    forall id <- a.ids
      ensures id in issues && Shown(rows, id) && Fresh(issues, r, RowFor(rows, id))
      ensures t[id] == Acted(cfg, issues[id], r, g, a) && (a.claim ==> issues[id].assigneeId.None?)
    {
      ActedOnce(cfg, issues, r, g, a, rows, a.ids, id);
    }
    forall id <- issues | id !in a.ids ensures t[id] == issues[id] {
      ActedElsewhere(cfg, issues, r, g, a, rows, a.ids, id);
    }
  }
}
