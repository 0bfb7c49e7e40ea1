/** The writers of issues beside editor, hierarchy, scenarios and queues: the public API, the bulk and
    automation workers, creation, archiving, governed deletion, and what the settings of statuses and of
    portal customers do to issues. */
module Writers {
  import opened Board
  import opened IssueEdit
  import opened Issues
  import opened Workflow
  import opened Wrappers

  // ---- The public API's PATCH, which asks for a version but for no transition and no limit

  datatype ApiEdit = ApiEdit(
    permitted: bool, id: Id, version: Option<int>, summary: Option<string>, description: Option<string>,
    estimate: Option<Option<int>>, statusId: Option<Id>, now: int)

  predicate ApiFields(cfg: Config, i: Issue, e: ApiEdit) {
    && ValidText(e.summary, 1, 200) && ValidText(e.description, 0, 20_000)
    && (e.estimate.Some? && e.estimate.value.Some? ==> 0 <= e.estimate.value.value <= 100)
    && (e.statusId.Some? ==> StatusKnown(cfg.statuses, i.project, e.statusId.value))
  }

  function ApiStatus(cfg: Config, issues: Table, e: ApiEdit): int {
    if e.version.None? || e.version.value < 1 then 400
    else if !e.permitted || e.id !in issues || issues[e.id].archived then 404
    else if issues[e.id].version != e.version.value then 409
    else if !ApiFields(cfg, issues[e.id], e) then 400
    else if e.summary.None? && e.description.None? && e.estimate.None? && e.statusId.None? then 400
    else 200
  }

  function ApiPatched(cfg: Config, issues: Table, e: ApiEdit): Table {
    if ApiStatus(cfg, issues, e) != 200 then issues
    else
      var i := issues[e.id];
      issues[e.id := i.(
        summary := e.summary.GetOr(i.summary), description := e.description.GetOr(i.description),
        estimate := e.estimate.GetOr(i.estimate), statusId := e.statusId.GetOr(i.statusId),
        completedAt := if e.statusId.Some? then CompletionTime(cfg, e.statusId.value, e.now) else i.completedAt,
        version := i.version + 1)]
  }

  // ---- One item of a bulk operation

  /** `known` are the custom fields of the project. */
  datatype BulkItem = BulkItem(
    permitted: bool, id: Id, expectedVersion: nat, members: set<Id>, known: set<Id>, now: int,
    priority: Option<Priority>, assigneeId: Option<Option<Id>>, statusId: Option<Id>, labels: Option<set<string>>,
    fields: Option<Fields>)

  /** Any enabled transition between the two statuses will do, whatever its conditions. */
  predicate AnyBetween(transitions: seq<Transition>, project: Id, from: Id, to: Id) {
    exists t <- transitions :: t.enabled && t.project == project && t.fromStatusId == from && t.toStatusId == to
  }

  predicate BulkMoveAllowed(cfg: Config, issues: Table, i: Issue, to: Id) {
    && StatusKnown(cfg.statuses, i.project, to)
    && (AnyEnabled(cfg.transitions, i.project) ==> AnyBetween(cfg.transitions, i.project, i.statusId, to))
    && !WipReached(cfg, issues, i.project, to)
  }

  predicate BulkGoes(cfg: Config, issues: Table, b: BulkItem) {
    && b.permitted && b.id in issues && !issues[b.id].archived && issues[b.id].version == b.expectedVersion
    && (b.assigneeId.Some? && b.assigneeId.value.Some? ==> b.assigneeId.value.value in b.members)
    && (b.statusId.Some? ==> BulkMoveAllowed(cfg, issues, issues[b.id], b.statusId.value))
    && (b.fields.Some? ==> b.fields.value.Keys <= b.known)
  }

  function BulkApplied(cfg: Config, issues: Table, b: BulkItem): Table {
    if !BulkGoes(cfg, issues, b) then issues
    else
      var i := issues[b.id];
      issues[b.id := i.(
        priority := b.priority.GetOr(i.priority), assigneeId := b.assigneeId.GetOr(i.assigneeId),
        statusId := b.statusId.GetOr(i.statusId),
        completedAt := if b.statusId.Some? then CompletionTime(cfg, b.statusId.value, b.now) else i.completedAt,
        labels := b.labels.GetOr(i.labels), fields := i.fields + b.fields.GetOr(map[]), version := i.version + 1)]
  }

  // ---- Rules, security levels, archiving

  function Prioritised(issues: Table, id: Id, priority: Priority): Table {
    if id !in issues then issues
    else issues[id := issues[id].(priority := priority, version := issues[id].version + 1)]
  }

  /** A label rule leaves the version alone. */
  function Labelled(issues: Table, id: Id, name: string): Table {
    if id !in issues then issues else issues[id := issues[id].(labels := issues[id].labels + {name})]
  }

  /** A new security level, which is no column here, raises the version. */
  function Secured(issues: Table, id: Id): Table {
    if id !in issues then issues else issues[id := issues[id].(version := issues[id].version + 1)]
  }

  function Archived(issues: Table, id: Id, archived: bool): Table {
    if id !in issues then issues
    else issues[id := issues[id].(archived := archived, version := issues[id].version + 1)]
  }

  // ---- Creation and governed deletion

  /** A new row: first version, not completed whatever its status, under another issue if under any. */
  predicate NewRow(cfg: Config, all: Table, id: Id, row: Issue) {
    && row.version == 1 && row.completedAt.None? && !row.archived
    && StatusKnown(cfg.statuses, row.project, row.statusId)
    && Kept(all, row.parentId) == row.parentId && row.parentId != Some(id)
  }

  /** New rows, one of them or an imported file, under ids that were never given out and under parents
      that are there or come along. */
  predicate Creatable(cfg: Config, issues: Table, used: set<Id>, rows: Table) {
    forall id <- rows :: id !in used && NewRow(cfg, issues + rows, id, rows[id])
  }

  function Gone(issues: Table, ids: set<Id>): set<Id> {
    set id <- ids | id in issues && issues[id].archived
  }

  /** Archived issues are deleted; the database takes their ids out of their children. */
  function Purged(issues: Table, ids: set<Id>): Table {
    var gone := Gone(issues, ids);
    map id | id in issues && id !in gone ::
      if issues[id].parentId.Some? && issues[id].parentId.value in gone
      then issues[id].(parentId := None) else issues[id]
  }

  // ---- What settings do to issues

  /** Deleting a status moves its issues to the replacement, at the version they have. */
  function Remapped(issues: Table, project: Id, statusId: Id, replacementId: Id): Table {
    map id | id in issues ::
      if issues[id].project == project && issues[id].statusId == statusId
      then issues[id].(statusId := replacementId) else issues[id]
  }

  function WithoutTransitions(transitions: seq<Transition>, statusId: Id): (r: seq<Transition>)
    ensures forall t :: t in r <==> t in transitions && t.fromStatusId != statusId && t.toStatusId != statusId
  {
    if transitions == [] then []
    else
      var t, rest := transitions[0], WithoutTransitions(transitions[1..], statusId);
      if t.fromStatusId == statusId || t.toStatusId == statusId then rest else [t] + rest
  }

  function WithoutStatusOf(cfg: Config, statusId: Id): Config {
    cfg.(statuses := cfg.statuses - {statusId}, columns := WithoutStatus(cfg.columns, statusId),
         transitions := WithoutTransitions(cfg.transitions, statusId))
  }

  function Merged(issues: Table, reported: set<Id>, source: Id, target: Id): Table {
    map id | id in issues ::
      if id in reported && issues[id].reporterId == source then issues[id].(reporterId := target) else issues[id]
  }
}
