/** The issue editor's PATCH: version check, field validation, workflow transition,
    work-in-progress guard, transition actions, custom fields, completion time, and the version bump. */
module IssueEdit {
  import opened Basics
  import opened Board
  import opened Issues
  import opened Workflow
  import opened Wrappers

  /** Project settings.  `readFields` is the check of custom field writes: what it stores for the values
      supplied to an issue type of a project, or None when it refuses them. */
  datatype Config = Config(
    statuses: Statuses, columns: seq<Column>, transitions: seq<Transition>, levels: set<Id>, epicTypes: set<Id>,
    readFields: (Id, Id, Fields) -> Option<Fields>)

  function Here(issues: Table, project: Id, statusId: Id): set<Id> {
    set id <- issues | issues[id].project == project && issues[id].statusId == statusId && !issues[id].archived
  }

  function Count(issues: Table, project: Id, statusId: Id): nat {
    |Here(issues, project, statusId)|
  }

  /** As the guard is written, a limit of zero would count as no limit. */
  predicate WipReached(cfg: Config, issues: Table, project: Id, statusId: Id) {
    var limit := LimitOf(cfg.columns, project, statusId);
    limit.Some? && limit.value != 0 && Count(issues, project, statusId) >= limit.value
  }

  function CompletionTime(cfg: Config, statusId: Id, now: int): Option<int>
    requires statusId in cfg.statuses
  {
    if cfg.statuses[statusId].category.Done? then Some(now) else None
  }

  // ---- The PATCH request

  /** The body, texts trimmed; an outer None is an absent key.  `permitted` stands for visibility and edit
      permission, `members` for the project's members. */
  datatype Edit = Edit(
    permitted: bool, id: Id, actorId: Id, workspaceRole: Role, projectRole: Option<Role>, members: set<Id>, now: int,
    version: Option<int>, statusId: Option<Id>, resolution: Option<Option<string>>, summary: Option<string>,
    description: Option<string>, priority: Option<Priority>, estimate: Option<Option<int>>,
    assigneeId: Option<Option<Id>>, dueDate: Option<Option<int>>, hierarchyLevelId: Option<Option<Id>>,
    labels: Option<set<string>>, customFields: Option<Fields>)

  /** What the update writes. */
  datatype Data = Data(
    statusId: Option<Id>, completedAt: Option<Option<int>>, resolution: Option<Option<string>>,
    summary: Option<string>, description: Option<string>, priority: Option<Priority>, estimate: Option<Option<int>>,
    assigneeId: Option<Option<Id>>, dueDate: Option<Option<int>>, hierarchyLevelId: Option<Option<Id>>,
    labels: Option<set<string>>, customFields: Option<Fields>)

  const NOTHING := Data(None, None, None, None, None, None, None, None, None, None, None, None)

  predicate ValidText(text: Option<string>, least: nat, most: nat) {
    text.Some? ==> least <= Units(text.value) <= most
  }

  predicate ValidLabels(labels: Option<set<string>>) {
    labels.Some? ==> |labels.value| <= 10 && forall name <- labels.value :: Units(name) <= 50
  }

  predicate ValidLevel(cfg: Config, issueTypeId: Id, level: Option<Option<Id>>) {
    level.Some? && level.value.Some? ==> level.value.value in cfg.levels && issueTypeId in cfg.epicTypes
  }

  predicate ValidFields(cfg: Config, i: Issue, e: Edit) {
    && (e.statusId.Some? ==> StatusKnown(cfg.statuses, i.project, e.statusId.value))
    && (e.resolution.Some? ==> ValidText(e.resolution.value, 0, 200))
    && ValidText(e.summary, 1, 200) && ValidText(e.description, 0, 20_000)
    && (e.estimate.Some? && e.estimate.value.Some? ==> 0 <= e.estimate.value.value <= 100)
    && (e.assigneeId.Some? && e.assigneeId.value.Some? ==> e.assigneeId.value.value in e.members)
    && ValidLevel(cfg, i.issueTypeId, e.hierarchyLevelId) && ValidLabels(e.labels)
  }

  /** An empty resolution is stored as none. */
  function Resolved(resolution: Option<Option<string>>): Option<Option<string>> {
    if resolution == Some(Some("")) then Some(None) else resolution
  }

  function DataOf(cfg: Config, e: Edit): Data
    requires e.statusId.Some? ==> e.statusId.value in cfg.statuses
  {
    Data(e.statusId, if e.statusId.Some? then Some(CompletionTime(cfg, e.statusId.value, e.now)) else None,
         Resolved(e.resolution), e.summary, e.description, e.priority, e.estimate, e.assigneeId, e.dueDate,
         e.hierarchyLevelId, e.labels, e.customFields)
  }

  function EffectOn(d: Data, effect: Effect, actorId: Id, reporterId: Id): Data {
    match effect
    case Assign(Actor) => d.(assigneeId := Some(Some(actorId)))
    case Assign(Reporter) => d.(assigneeId := Some(Some(reporterId)))
    case Assign(User(id)) => d.(assigneeId := Some(Some(id)))
    case SetPriority(Some(p)) => d.(priority := Some(p))
    case SetField(fieldId, value) => d.(customFields := Some(d.customFields.GetOr(map[])[fieldId := value]))
    case _ => d
  }

  function EffectsOn(d: Data, effects: seq<Effect>, actorId: Id, reporterId: Id): (r: Data)
    ensures r.statusId == d.statusId && r.completedAt == d.completedAt
  {
    if effects == [] then d
    else
      var last := effects[|effects| - 1];
      EffectOn(EffectsOn(d, effects[..|effects| - 1], actorId, reporterId), last, actorId, reporterId)
  }

  function CommentsOf(effects: seq<Effect>): seq<string> {
    if effects == [] then []
    else
      var last := effects[|effects| - 1];
      CommentsOf(effects[..|effects| - 1]) + if last.Comment? && last.text != "" then [last.text] else []
  }

  /** The row after the update; `fields` are the custom field values to store. */
  function Written(i: Issue, d: Data, fields: Fields): Issue {
    i.(statusId := d.statusId.GetOr(i.statusId), completedAt := d.completedAt.GetOr(i.completedAt),
       resolution := d.resolution.GetOr(i.resolution), summary := d.summary.GetOr(i.summary),
       description := d.description.GetOr(i.description), priority := d.priority.GetOr(i.priority),
       estimate := d.estimate.GetOr(i.estimate), assigneeId := d.assigneeId.GetOr(i.assigneeId),
       dueDate := d.dueDate.GetOr(i.dueDate), hierarchyLevelId := d.hierarchyLevelId.GetOr(i.hierarchyLevelId),
       labels := d.labels.GetOr(i.labels), fields := i.fields + fields, version := i.version + 1)
  }

  function TransitionRequest(i: Issue, e: Edit, to: Id): Request {
    Request(i.project, i.statusId, to, e.actorId, e.workspaceRole, e.projectRole,
            Proposed(Resolved(e.resolution), e.assigneeId))
  }

  predicate Moves(i: Issue, e: Edit) {
    e.statusId.Some? && e.statusId.value != i.statusId
  }

  /** What the guard says about the move; free when the status does not change. */
  function MoveVerdict(cfg: Config, i: Issue, e: Edit): Verdict {
    if !Moves(i, e) then Free
    else EvaluateTransition(cfg.transitions, TransitionRequest(i, e, e.statusId.value), i)
  }

  function ActionsOf(v: Verdict): seq<Effect> {
    if v.Takes? then v.transition.actions else []
  }

  /** The written data once the actions of the transition taken are worked in. */
  function FinalData(cfg: Config, i: Issue, e: Edit): Data
    requires e.statusId.Some? ==> e.statusId.value in cfg.statuses
  {
    EffectsOn(DataOf(cfg, e), ActionsOf(MoveVerdict(cfg, i, e)), e.actorId, i.reporterId)
  }

  /** The custom field values to store, or None when the values supplied are refused. */
  function FieldWrites(cfg: Config, i: Issue, supplied: Option<Fields>): Option<Fields> {
    if supplied.None? then Some(map[]) else cfg.readFields(i.project, i.issueTypeId, supplied.value)
  }

  function PatchStatus(cfg: Config, issues: Table, e: Edit): int {
    if !e.permitted || e.id !in issues || issues[e.id].archived then 404
    else
      var i := issues[e.id];
      if e.version.Some? && e.version.value != i.version then 409
      else if !ValidFields(cfg, i, e) || DataOf(cfg, e) == NOTHING then 400
      else if MoveVerdict(cfg, i, e).Refused? then 400
      else if Moves(i, e) && WipReached(cfg, issues, i.project, e.statusId.value) then 400
      else if FieldWrites(cfg, i, FinalData(cfg, i, e).customFields).None? then 400
      else 200
  }

  function PatchedTable(cfg: Config, issues: Table, e: Edit): Table {
    if PatchStatus(cfg, issues, e) != 200 then issues
    else
      var i := issues[e.id];
      var d := FinalData(cfg, i, e);
      issues[e.id := Written(i, d, FieldWrites(cfg, i, d.customFields).value)]
  }

  datatype Remark = Remark(issueId: Id, authorId: Id, body: string)

  function RemarksOf(id: Id, actorId: Id, texts: seq<string>): (r: seq<Remark>)
    ensures |r| == |texts| && forall k :: 0 <= k < |r| ==> r[k] == Remark(id, actorId, texts[k])
  {
    seq(|texts|, k requires 0 <= k < |texts| => Remark(id, actorId, texts[k]))
  }

  function Remarks(cfg: Config, issues: Table, e: Edit): seq<Remark> {
    if PatchStatus(cfg, issues, e) != 200 then []
    else RemarksOf(e.id, e.actorId, CommentsOf(ActionsOf(MoveVerdict(cfg, issues[e.id], e))))
  }

  class Desk {
    var issues: Table
    var comments: seq<Remark>

    constructor (issues: Table)
      ensures this.issues == issues && comments == []
    {
      this.issues, comments := issues, [];
    }

    /** Checks the row and the body, then the move, works in the transition's actions, and writes. */
    method Patch(cfg: Config, e: Edit) returns (status: int)
      modifies this
      ensures status == PatchStatus(cfg, old(issues), e)
      ensures issues == PatchedTable(cfg, old(issues), e)
      ensures comments == old(comments) + Remarks(cfg, old(issues), e)
      ensures status != 200 ==> issues == old(issues) && comments == old(comments)
      ensures status == 200 ==>
        && issues.Keys == old(issues).Keys && e.id in issues
        && issues[e.id].version == old(issues)[e.id].version + 1
        && forall id <- issues :: id != e.id ==> issues[id] == old(issues)[id]
      ensures status == 200 && Moves(old(issues)[e.id], e) ==>
        !WipReached(cfg, old(issues), issues[e.id].project, issues[e.id].statusId)
    {
      if !e.permitted || e.id !in issues || issues[e.id].archived { return 404; }
      var existing := issues[e.id];
      if e.version.Some? && e.version.value != existing.version { return 409; }
      var filled := Fill(cfg, existing, e);
      if filled.None? || filled.value == NOTHING { return 400; }
      var data, verdict := filled.value, Free;
      if data.statusId.Some? && data.statusId.value != existing.statusId {
        verdict := EvaluateTransition(
          cfg.transitions, TransitionRequest(existing, e, data.statusId.value), existing);
        if verdict.Refused? { return 400; }
        if WipReached(cfg, issues, existing.project, data.statusId.value) { return 400; }
      }
      assert verdict == MoveVerdict(cfg, existing, e);
      var texts;
      data, texts := RunEffects(data, ActionsOf(verdict), e.actorId, existing.reporterId);
      var fields := FieldWrites(cfg, existing, data.customFields);
      if fields.None? { return 400; }
      issues := issues[e.id := Written(existing, data, fields.value)];
      comments := comments + RemarksOf(e.id, e.actorId, texts);
      status := 200;
    }
  }

  /** The written columns, filled field by field from the body; None when a field is invalid. */
  method Fill(cfg: Config, existing: Issue, e: Edit) returns (r: Option<Data>)
    ensures r.Some? <==> ValidFields(cfg, existing, e)
    ensures r.Some? ==> r.value == DataOf(cfg, e)
  {
    var data := NOTHING;
    if e.statusId.Some? {
      if !StatusKnown(cfg.statuses, existing.project, e.statusId.value) { return None; }
      data := data.(statusId := e.statusId, completedAt := Some(CompletionTime(cfg, e.statusId.value, e.now)));
    }
    if e.resolution.Some? {
      if !ValidText(e.resolution.value, 0, 200) { return None; }
      data := data.(resolution := Resolved(e.resolution));
    }
    if !ValidText(e.summary, 1, 200) || !ValidText(e.description, 0, 20_000) { return None; }
    data := data.(summary := e.summary, description := e.description, priority := e.priority);
    if e.estimate.Some? {
      if e.estimate.value.Some? && !(0 <= e.estimate.value.value <= 100) { return None; }
      data := data.(estimate := e.estimate);
    }
    if e.assigneeId.Some? {
      if e.assigneeId.value.Some? && e.assigneeId.value.value !in e.members { return None; }
      data := data.(assigneeId := e.assigneeId);
    }
    data := data.(dueDate := e.dueDate);
    if !ValidLevel(cfg, existing.issueTypeId, e.hierarchyLevelId) || !ValidLabels(e.labels) { return None; }
    r := Some(data.(hierarchyLevelId := e.hierarchyLevelId, labels := e.labels, customFields := e.customFields));
  }

  method RunEffects(proposed: Data, effects: seq<Effect>, actorId: Id, reporterId: Id)
    returns (data: Data, texts: seq<string>)
    ensures data == EffectsOn(proposed, effects, actorId, reporterId)
    ensures texts == CommentsOf(effects)
  {
    data, texts := proposed, [];
    for k := 0 to |effects|
      invariant data == EffectsOn(proposed, effects[..k], actorId, reporterId)
      invariant texts == CommentsOf(effects[..k])
    {
      assert effects[..k + 1][..k] == effects[..k];
      match effects[k] {
        case Assign(Actor) => data := data.(assigneeId := Some(Some(actorId)));
        case Assign(Reporter) => data := data.(assigneeId := Some(Some(reporterId)));
        case Assign(User(id)) => data := data.(assigneeId := Some(Some(id)));
        case SetPriority(Some(p)) => data := data.(priority := Some(p));
        case SetField(fieldId, value) =>
          data := data.(customFields := Some(data.customFields.GetOr(map[])[fieldId := value]));
        case Comment(text) => if text != "" { texts := texts + [text]; }
        case _ =>
      }
    }
    assert effects[..|effects|] == effects;
  }

  // ---- What moving one issue does to the counts

  /** `after` differs from `before` in one row, which stays in its project and is not archived. */
  ghost predicate OneRow(before: Table, after: Table, id: Id) {
    && id in before && id in after && !before[id].archived && !after[id].archived
    && after[id].project == before[id].project && after == before[id := after[id]]
  }

  /** Moving an issue adds one to the count it enters and takes nothing else up. */
  lemma MoveCounts(before: Table, after: Table, id: Id, project: Id, statusId: Id)
    requires OneRow(before, after, id)
    ensures var enters := before[id].project == project && after[id].statusId == statusId
                          && before[id].statusId != statusId;
      Count(after, project, statusId) <= Count(before, project, statusId) + if enters then 1 else 0
  {
    var a, b := Here(before, project, statusId), Here(after, project, statusId);
    if before[id].project == project && after[id].statusId == statusId && before[id].statusId != statusId {
      assert b == a + {id};
    } else {
      assert b <= a;
      SubsetSize(b, a);
    }
  }
}
