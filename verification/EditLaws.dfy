/** What an accepted PATCH of the issue editor does to an issue, column by column, and exactly when it is
    accepted; with the notions the laws of the other writers share. */
module EditLaws {
  import opened Basics
  import opened Board
  import opened IssueEdit
  import opened Issues
  import opened Workflow
  import opened Wrappers

  // ---- Reference notions

  /** The key is absent, or its text has a length in code units between the two. */
  ghost predicate TextFits(text: Option<string>, least: nat, most: nat) {
    match text
    case None => true
    case Some(s) => least <= Units(s) && Units(s) <= most
  }

  /** The column is what the key says, or what it was. */
  ghost predicate Arrives<T>(key: Option<T>, before: T, after: T) {
    match key
    case Some(x) => after == x
    case None => after == before
  }

  /** The completion column after a request that names a status, or none. */
  ghost predicate CompletedBy(cfg: Config, statusId: Option<Id>, now: int, before: Option<int>, after: Option<int>) {
    if statusId == None then after == before
    else if statusId.value in cfg.statuses && cfg.statuses[statusId.value].category == Done then after == Some(now)
    else after == None
  }

  /** The first column of the project's board for the status has a limit that its live issues reach. */
  ghost predicate Full(cfg: Config, issues: Table, project: Id, statusId: Id) {
    exists k: nat :: FirstColumn(cfg.columns, project, statusId, k) && cfg.columns[k].wipLimit.Some?
      && cfg.columns[k].wipLimit.value != 0
      && |set id <- issues | issues[id].project == project && issues[id].statusId == statusId && !issues[id].archived|
         >= cfg.columns[k].wipLimit.value
  }

  ghost predicate FirstColumn(columns: seq<Column>, project: Id, statusId: Id, k: nat) {
    && k < |columns| && columns[k].project == project && columns[k].statusId == statusId
    && forall j :: 0 <= j < k ==> columns[j].project != project || columns[j].statusId != statusId
  }

  lemma {:induction false} LimitIsFirst(columns: seq<Column>, project: Id, statusId: Id, k: nat)
    requires FirstColumn(columns, project, statusId, k)
    ensures LimitOf(columns, project, statusId) == columns[k].wipLimit
    decreases k
  {
    if k > 0 {
      assert columns[0].project != project || columns[0].statusId != statusId;
      LimitIsFirst(columns[1..], project, statusId, k - 1);
    }
  }

  lemma {:induction false} LimitHasColumn(columns: seq<Column>, project: Id, statusId: Id) returns (k: nat)
    requires LimitOf(columns, project, statusId).Some?
    ensures FirstColumn(columns, project, statusId, k)
    decreases |columns|
  {
    k := 0;
    if columns[0].project != project || columns[0].statusId != statusId {
      k := LimitHasColumn(columns[1..], project, statusId);
      assert forall j :: 0 < j <= k ==> columns[j] == columns[1..][j - 1];
      k := k + 1;
    }
  }

  lemma ReachedIffFull(cfg: Config, issues: Table, project: Id, statusId: Id)
    ensures WipReached(cfg, issues, project, statusId) <==> Full(cfg, issues, project, statusId)
  {
    var here := set id <- issues |
      issues[id].project == project && issues[id].statusId == statusId && !issues[id].archived;
    assert here == Here(issues, project, statusId);
    if WipReached(cfg, issues, project, statusId) {
      var k := LimitHasColumn(cfg.columns, project, statusId);
      LimitIsFirst(cfg.columns, project, statusId, k);
    }
    if Full(cfg, issues, project, statusId) {
      var k: nat :| FirstColumn(cfg.columns, project, statusId, k) && cfg.columns[k].wipLimit.Some?
        && cfg.columns[k].wipLimit.value != 0 && |here| >= cfg.columns[k].wipLimit.value;
      LimitIsFirst(cfg.columns, project, statusId, k);
    }
  }

  // ---- Transitions

  /** What a condition asks of the request and of the issue as it is. */
  ghost predicate Asks(rule: Rule, r: Request, issue: Issue) {
    && (rule.RoleRule? ==>
          match r.projectRole case Some(role) => role in rule.roles case None => r.workspaceRole in rule.roles)
    && (rule.AssigneeRule? ==> issue.assigneeId == Some(r.actorId))
    && (rule.ReporterRule? ==> issue.reporterId == r.actorId)
    && (rule.IssueTypeRule? ==> issue.issueTypeId in rule.issueTypeIds)
    && (rule.FieldEquals? ==> rule.fieldId in issue.fields.Keys && issue.fields[rule.fieldId] == rule.value)
    && (rule.RoleRule? || rule.AssigneeRule? || rule.ReporterRule? || rule.IssueTypeRule? || rule.FieldEquals?)
  }

  /** The text is there and not empty. */
  ghost predicate Given(text: Option<string>) {
    exists s :: text == Some(s) && |s| > 0
  }

  /** What a validator asks of the proposed change and of the issue as it is. */
  ghost predicate Grants(rule: Rule, issue: Issue, p: Proposed) {
    && (rule.ResolutionRule? ==>
          Given(issue.resolution) || match p.resolution case Some(text) => Given(text) case None => false)
    && (rule.RequiredAssignee? ==>
          match p.assigneeId case Some(user) => user != None case None => issue.assigneeId != None)
    && (rule.RequiredField? ==>
          match rule.field case Some(f) => f in issue.fields.Keys case None => false)
  }

  /** The transition leads from where the issue is to where the request wants it, and asks nothing amiss. */
  ghost predicate Leads(t: Transition, r: Request, issue: Issue) {
    && t.enabled && t.project == r.project && t.fromStatusId == r.fromStatusId && t.toStatusId == r.toStatusId
    && forall rule <- t.conditions :: Asks(rule, r, issue)
  }

  ghost predicate FirstLeads(transitions: seq<Transition>, r: Request, issue: Issue, k: nat) {
    && k < |transitions| && Leads(transitions[k], r, issue)
    && forall j :: 0 <= j < k ==> !Leads(transitions[j], r, issue)
  }

  lemma OpenIffLeads(t: Transition, r: Request, issue: Issue)
    ensures Open(t, r, issue) <==> Leads(t, r, issue)
  {
    forall rule <- t.conditions ensures Holds(rule, r, issue) <==> Asks(rule, r, issue) {}
  }

  lemma PassesIffGrants(t: Transition, issue: Issue, p: Proposed)
    ensures Passes(t, issue, p) <==> forall rule <- t.validators :: Grants(rule, issue, p)
  {
    forall rule <- t.validators ensures !Violated(rule, issue, p) <==> Grants(rule, issue, p) {
      GrantsIff(rule, issue, p);
    }
  }

  lemma GrantsIff(rule: Rule, issue: Issue, p: Proposed)
    ensures !Violated(rule, issue, p) <==> Grants(rule, issue, p)
  {
    GivenIff(issue.resolution);
    GivenIff(p.resolution.GetOr(None));
  }

  lemma GivenIff(text: Option<string>)
    ensures NonEmpty(text) <==> Given(text)
  {
    if NonEmpty(text) { assert text == Some(text.value) && |text.value| > 0; }
  }

  /** The guard says: free if nothing is enabled in the project; else the first transition that leads there
      decides, and is taken with its actions if its validators grant it. */
  lemma VerdictMeans(transitions: seq<Transition>, r: Request, issue: Issue)
    ensures var v := EvaluateTransition(transitions, r, issue);
      && (v == Free <==> forall t <- transitions :: t.project == r.project ==> !t.enabled)
      && (v.Takes? <==> exists k: nat ::
            (FirstLeads(transitions, r, issue, k)
             && forall rule <- transitions[k].validators :: Grants(rule, issue, r.proposed)))
      && (forall k: nat :: v.Takes? && FirstLeads(transitions, r, issue, k) ==> v.transition == transitions[k])
  {
    var v := EvaluateTransition(transitions, r, issue);
    forall k: nat ensures FirstLeads(transitions, r, issue, k) <==> FirstOpen(transitions, r, issue, k) {
      FirstLeadsIff(transitions, r, issue, k);
    }
    forall t { PassesIffGrants(t, issue, r.proposed); }
    if v.Takes? {
      var k: nat :| FirstOpen(transitions, r, issue, k) && transitions[k] == v.transition;
      forall j: nat | FirstOpen(transitions, r, issue, j) ensures j == k {}
    }
  }

  lemma FirstLeadsIff(transitions: seq<Transition>, r: Request, issue: Issue, k: nat)
    ensures FirstLeads(transitions, r, issue, k) <==> FirstOpen(transitions, r, issue, k)
  {
    forall t { OpenIffLeads(t, r, issue); }
  }

  // ---- What transition actions do

  /** The last action that sets the priority, if any does. */
  ghost predicate LastPriority(acts: seq<Effect>, k: nat) {
    && k < |acts| && acts[k].SetPriority? && acts[k].priority.Some?
    && forall j :: k < j < |acts| ==> !(acts[j].SetPriority? && acts[j].priority.Some?)
  }

  predicate Assigns(act: Effect) {
    act.Assign? && !act.target.NoTarget?
  }

  ghost predicate LastAssignment(acts: seq<Effect>, k: nat) {
    k < |acts| && Assigns(acts[k]) && forall j :: k < j < |acts| ==> !Assigns(acts[j])
  }

  ghost predicate LastField(acts: seq<Effect>, fieldId: Id, k: nat) {
    && k < |acts| && acts[k].SetField? && acts[k].fieldId == fieldId
    && forall j :: k < j < |acts| ==> !(acts[j].SetField? && acts[j].fieldId == fieldId)
  }

  ghost predicate NamesTarget(target: Target, actorId: Id, reporterId: Id, u: Id) {
    || (target.Actor? && u == actorId) || (target.Reporter? && u == reporterId) || (target.User? && u == target.id)
  }

  lemma {:induction false} PrioritySet(d: Data, acts: seq<Effect>, actorId: Id, reporterId: Id)
    ensures var r := EffectsOn(d, acts, actorId, reporterId);
      && (forall k: nat :: LastPriority(acts, k) ==> r.priority == acts[k].priority)
      && ((forall k: nat :: !LastPriority(acts, k)) ==> r.priority == d.priority)
    decreases |acts|
  {
    if acts != [] {
      var front, n := acts[..|acts| - 1], |acts| - 1;
      PrioritySet(d, front, actorId, reporterId);
      if acts[n].SetPriority? && acts[n].priority.Some? {
        assert LastPriority(acts, n);
      } else {
        forall k: nat ensures LastPriority(acts, k) <==> LastPriority(front, k) {
          assert forall j :: 0 <= j < n ==> acts[j] == front[j];
        }
      }
    }
  }

  lemma {:induction false} AssigneeSet(d: Data, acts: seq<Effect>, actorId: Id, reporterId: Id)
    ensures var r := EffectsOn(d, acts, actorId, reporterId);
      && (forall k: nat :: LastAssignment(acts, k) ==>
            exists u :: r.assigneeId == Some(Some(u)) && NamesTarget(acts[k].target, actorId, reporterId, u))
      && ((forall k: nat :: !LastAssignment(acts, k)) ==> r.assigneeId == d.assigneeId)
    decreases |acts|
  {
    if acts != [] {
      var front, n := acts[..|acts| - 1], |acts| - 1;
      AssigneeSet(d, front, actorId, reporterId);
      if Assigns(acts[n]) {
        assert LastAssignment(acts, n);
        var r := EffectsOn(d, acts, actorId, reporterId);
        assert NamesTarget(acts[n].target, actorId, reporterId, r.assigneeId.value.value);
      } else {
        forall k: nat ensures LastAssignment(acts, k) <==> LastAssignment(front, k) {
          assert forall j :: 0 <= j < n ==> acts[j] == front[j];
        }
      }
    }
  }

  /** Actions are on priority, assignee and custom fields only. */
  lemma {:induction false} OthersKept(d: Data, acts: seq<Effect>, actorId: Id, reporterId: Id)
    ensures var r := EffectsOn(d, acts, actorId, reporterId);
      r == d.(priority := r.priority, assigneeId := r.assigneeId, customFields := r.customFields)
    decreases |acts|
  {
    if acts != [] { OthersKept(d, acts[..|acts| - 1], actorId, reporterId); }
  }

  /** The custom field values supplied: those of actions, the last for each field, over those of the body. */
  ghost predicate Supplies(body: Option<Fields>, acts: seq<Effect>, supplied: Option<Fields>) {
    && (supplied == None <==> body == None && forall act <- acts :: !act.SetField?)
    && (supplied.Some? ==> forall f ::
          && (forall k: nat :: LastField(acts, f, k) ==>
                f in supplied.value && supplied.value[f] == acts[k].value)
          && ((forall k: nat :: !LastField(acts, f, k)) ==>
                (f in supplied.value <==> body.Some? && f in body.value)
                && (f in supplied.value ==> supplied.value[f] == body.value[f])))
  }

  lemma {:induction false} FieldsSupplied(d: Data, acts: seq<Effect>, actorId: Id, reporterId: Id)
    ensures Supplies(d.customFields, acts, EffectsOn(d, acts, actorId, reporterId).customFields)
    decreases |acts|
  {
    if acts != [] {
      var front, n := acts[..|acts| - 1], |acts| - 1;
      FieldsSupplied(d, front, actorId, reporterId);
      assert acts == front + [acts[n]] && forall act :: act in acts <==> act in front || act == acts[n];
      forall f: Id, k: nat
        ensures LastField(acts, f, k) <==>
          if acts[n].SetField? && acts[n].fieldId == f then k == n else LastField(front, f, k)
      {
        assert forall j :: 0 <= j < n ==> acts[j] == front[j];
        if acts[n].SetField? && acts[n].fieldId == f && k < n { assert !(k < n < |acts| && !LastField(acts, f, n)); }
      }
      if acts[n].SetField? { assert LastField(acts, acts[n].fieldId, n); }
    }
  }

  // ---- The editor's PATCH

  /** What the editor asks of the transitions when the status changes: the resolution proposed is none when
      it is empty. */
  function Asked(i: Issue, e: Edit, to: Id): Request {
    var resolution := match e.resolution case Some(Some(s)) => Some(if |s| == 0 then None else Some(s)) case r => r;
    Request(i.project, i.statusId, to, e.actorId, e.workspaceRole, e.projectRole, Proposed(resolution, e.assigneeId))
  }

  predicate ChangesStatus(i: Issue, e: Edit) {
    match e.statusId case Some(s) => s != i.statusId case None => false
  }

  /** The actions that come with the edit: those of the transition taken, if one is. */
  ghost predicate Brings(cfg: Config, i: Issue, e: Edit, acts: seq<Effect>) {
    if ChangesStatus(i, e) && EvaluateTransition(cfg.transitions, Asked(i, e, e.statusId.value), i).Takes? then
      acts == EvaluateTransition(cfg.transitions, Asked(i, e, e.statusId.value), i).transition.actions
    else acts == []
  }

  /** Every key that is there fits its column. */
  ghost predicate Fits(cfg: Config, i: Issue, e: Edit) {
    && (e.statusId.Some? ==> e.statusId.value in cfg.statuses && cfg.statuses[e.statusId.value].project == i.project)
    && (match e.resolution case Some(text) => TextFits(text, 0, 200) case None => true)
    && TextFits(e.summary, 1, 200) && TextFits(e.description, 0, 20_000)
    && (match e.estimate case Some(Some(n)) => 0 <= n && n <= 100 case _ => true)
    && (match e.assigneeId case Some(Some(u)) => u in e.members case _ => true)
    && (match e.hierarchyLevelId case Some(Some(l)) => l in cfg.levels && i.issueTypeId in cfg.epicTypes case _ => true)
    && (match e.labels
        case Some(names) => |names| <= 10 && forall name <- names :: Units(name) <= 50
        case None => true)
  }

  predicate SaysSomething(e: Edit) {
    || e.statusId.Some? || e.resolution.Some? || e.summary.Some? || e.description.Some? || e.priority.Some?
    || e.estimate.Some? || e.assigneeId.Some? || e.dueDate.Some? || e.hierarchyLevelId.Some? || e.labels.Some?
    || e.customFields.Some?
  }

  /** The status stays, or the transitions let it change and the column has room. */
  ghost predicate MayMove(cfg: Config, issues: Table, i: Issue, e: Edit) {
    ChangesStatus(i, e) ==>
      && !EvaluateTransition(cfg.transitions, Asked(i, e, e.statusId.value), i).Refused?
      && !Full(cfg, issues, i.project, e.statusId.value)
  }

  /** The custom field values supplied are accepted. */
  ghost predicate FieldsRead(cfg: Config, i: Issue, e: Edit) {
    forall acts, supplied :: Brings(cfg, i, e, acts) && Supplies(e.customFields, acts, Some(supplied)) ==>
      cfg.readFields(i.project, i.issueTypeId, supplied).Some?
  }

  lemma SuppliesOnce(body: Option<Fields>, acts: seq<Effect>, a: Option<Fields>, b: Option<Fields>)
    requires Supplies(body, acts, a) && Supplies(body, acts, b)
    ensures a == b
  {
    if a.Some? {
      forall f ensures f in a.value <==> f in b.value
        ensures f in a.value ==> a.value[f] == b.value[f]
      {
        if k: nat :| LastField(acts, f, k) {}
      }
      assert a.value == b.value;
    }
  }

  lemma AskedIsRequested(i: Issue, e: Edit, to: Id)
    ensures TransitionRequest(i, e, to) == Asked(i, e, to)
  {}

  lemma ActionsBrought(cfg: Config, i: Issue, e: Edit)
    ensures Brings(cfg, i, e, ActionsOf(MoveVerdict(cfg, i, e)))
    ensures Supplies(
      e.customFields, ActionsOf(MoveVerdict(cfg, i, e)),
      EffectsOn(NOTHING.(customFields := e.customFields), ActionsOf(MoveVerdict(cfg, i, e)), e.actorId, i.reporterId)
        .customFields)
  {
    if e.statusId.Some? { AskedIsRequested(i, e, e.statusId.value); }
    FieldsSupplied(
      NOTHING.(customFields := e.customFields), ActionsOf(MoveVerdict(cfg, i, e)), e.actorId, i.reporterId);
  }

  /** When a PATCH is answered how: the issue not found, another version, something amiss, or done. */
  lemma PatchAnswers(cfg: Config, issues: Table, e: Edit)
    ensures var status, found := PatchStatus(cfg, issues, e), e.permitted && e.id in issues && !issues[e.id].archived;
      && (status == 404 <==> !found)
      && (status == 409 <==> found && e.version.Some? && e.version.value != issues[e.id].version)
      && (status == 200 <==>
            (found && (e.version == None || e.version == Some(issues[e.id].version))
             && Fits(cfg, issues[e.id], e) && SaysSomething(e) && MayMove(cfg, issues, issues[e.id], e)
             && FieldsRead(cfg, issues[e.id], e)))
      && (status == 200 || status == 400 || status == 404 || status == 409)
  {
    if e.permitted && e.id in issues && !issues[e.id].archived {
      var i := issues[e.id];
      if e.statusId.Some? {
        AskedIsRequested(i, e, e.statusId.value);
        ReachedIffFull(cfg, issues, i.project, e.statusId.value);
      }
      if ValidFields(cfg, i, e) { FieldsReadIff(cfg, i, e); }
    }
  }

  lemma FieldsReadIff(cfg: Config, i: Issue, e: Edit)
    requires ValidFields(cfg, i, e)
    ensures FieldsRead(cfg, i, e) <==> FieldWrites(cfg, i, FinalData(cfg, i, e).customFields).Some?
  {
    var acts := ActionsOf(MoveVerdict(cfg, i, e));
    ActionsBrought(cfg, i, e);
    FieldsSupplied(DataOf(cfg, e), acts, e.actorId, i.reporterId);
    var final := FinalData(cfg, i, e).customFields;
    assert Supplies(e.customFields, acts, final);
    forall supplied | Supplies(e.customFields, acts, Some(supplied)) ensures final == Some(supplied) {
      SuppliesOnce(e.customFields, acts, final, Some(supplied));
    }
    forall other | Brings(cfg, i, e, other) ensures other == acts {}
  }

  /** The columns of an issue after an accepted PATCH. */
  ghost predicate PatchColumns(cfg: Config, i: Issue, e: Edit, acts: seq<Effect>, t: Issue) {
    && Arrives(e.statusId, i.statusId, t.statusId)
    && CompletedBy(cfg, e.statusId, e.now, i.completedAt, t.completedAt)
    && Arrives(e.summary, i.summary, t.summary)
    && Arrives(e.description, i.description, t.description)
    && Arrives(e.estimate, i.estimate, t.estimate)
    && Arrives(e.dueDate, i.dueDate, t.dueDate)
    && Arrives(e.hierarchyLevelId, i.hierarchyLevelId, t.hierarchyLevelId)
    && Arrives(e.labels, i.labels, t.labels)
    && (match e.resolution
        case None => t.resolution == i.resolution
        case Some(text) => t.resolution == if text == Some("") then None else text)
    && t.version == i.version + 1
    && t.project == i.project && t.reporterId == i.reporterId && t.issueTypeId == i.issueTypeId
    && t.parentId == i.parentId && t.archived == i.archived
  }

  /** Priority and assignee: the last action on them, else the key, else what they were. */
  ghost predicate ActionColumns(i: Issue, e: Edit, acts: seq<Effect>, t: Issue) {
    && (forall k: nat :: LastPriority(acts, k) ==> Some(t.priority) == acts[k].priority)
    && ((forall k: nat :: !LastPriority(acts, k)) ==> Arrives(e.priority, i.priority, t.priority))
    && (forall k: nat :: LastAssignment(acts, k) ==>
          exists u :: t.assigneeId == Some(u) && NamesTarget(acts[k].target, e.actorId, i.reporterId, u))
    && ((forall k: nat :: !LastAssignment(acts, k)) ==> Arrives(e.assigneeId, i.assigneeId, t.assigneeId))
  }

  /** Custom fields: what is stored for the values supplied, and else what was there. */
  ghost predicate FieldColumns(cfg: Config, i: Issue, e: Edit, acts: seq<Effect>, t: Issue) {
    exists supplied :: Supplies(e.customFields, acts, supplied)
      && match supplied
         case None => t.fields == i.fields
         case Some(values) =>
           var stored := cfg.readFields(i.project, i.issueTypeId, values);
           stored.Some? && OverlaidBy(i.fields, stored.value, t.fields)
  }

  ghost predicate OverlaidBy(before: Fields, stored: Fields, after: Fields) {
    forall f ::
      && (f in after <==> f in before || f in stored)
      && (f in stored ==> after[f] == stored[f])
      && (f in before && f !in stored ==> after[f] == before[f])
  }

  /** An accepted PATCH: each key arrives in its column, each absent one leaves it alone, the actions of the
      transition taken have the last word, and no other issue changes. */
  lemma PatchMeans(cfg: Config, issues: Table, e: Edit) returns (acts: seq<Effect>)
    requires PatchStatus(cfg, issues, e) == 200
    ensures Brings(cfg, issues[e.id], e, acts)
    ensures var t := PatchedTable(cfg, issues, e);
      && t.Keys == issues.Keys && (forall id <- issues :: id != e.id ==> t[id] == issues[id])
      && PatchColumns(cfg, issues[e.id], e, acts, t[e.id])
      && ActionColumns(issues[e.id], e, acts, t[e.id])
      && FieldColumns(cfg, issues[e.id], e, acts, t[e.id])
  {
    var i := issues[e.id];
    acts := ActionsOf(MoveVerdict(cfg, i, e));
    ActionsBrought(cfg, i, e);
    ColumnsWritten(cfg, i, e, acts, FieldWrites(cfg, i, FinalData(cfg, i, e).customFields).value);
    FieldsWritten(cfg, i, e, acts);
  }

  lemma ColumnsWritten(cfg: Config, i: Issue, e: Edit, acts: seq<Effect>, fields: Fields)
    requires ValidFields(cfg, i, e) && acts == ActionsOf(MoveVerdict(cfg, i, e))
    ensures PatchColumns(cfg, i, e, acts, Written(i, FinalData(cfg, i, e), fields))
    ensures ActionColumns(i, e, acts, Written(i, FinalData(cfg, i, e), fields))
  {
    var d := DataOf(cfg, e);
    PrioritySet(d, acts, e.actorId, i.reporterId);
    AssigneeSet(d, acts, e.actorId, i.reporterId);
    OthersKept(d, acts, e.actorId, i.reporterId);
  }

  lemma FieldsWritten(cfg: Config, i: Issue, e: Edit, acts: seq<Effect>)
    requires ValidFields(cfg, i, e) && acts == ActionsOf(MoveVerdict(cfg, i, e))
    requires FieldWrites(cfg, i, FinalData(cfg, i, e).customFields).Some?
    ensures var d := FinalData(cfg, i, e);
      FieldColumns(cfg, i, e, acts, Written(i, d, FieldWrites(cfg, i, d.customFields).value))
  {
    FieldsSupplied(DataOf(cfg, e), acts, e.actorId, i.reporterId);
    var supplied := FinalData(cfg, i, e).customFields;
    assert Supplies(e.customFields, acts, supplied);
    assert i.fields + map[] == i.fields;
  }

  /** Comments come one for each action with a text, in their order. */
  lemma {:induction false} CommentsPiecewise(a: seq<Effect>, b: seq<Effect>)
    ensures CommentsOf(a + b) == CommentsOf(a) + CommentsOf(b)
    decreases |b|
  {
    if b == [] {
      assert a + b == a && CommentsOf(a) + [] == CommentsOf(a);
    } else {
      var front := b[..|b| - 1];
      assert (a + b)[..|a + b| - 1] == a + front;
      CommentsPiecewise(a, front);
    }
  }

  lemma CommentOfOne(act: Effect)
    ensures CommentsOf([act]) == if act.Comment? && |act.text| > 0 then [act.text] else []
  {
    assert [act][..0] == [] && CommentsOf([]) == [];
  }

  /** The comments of an accepted PATCH are by its actor, on its issue, with those texts. */
  lemma RemarksMean(cfg: Config, issues: Table, e: Edit, acts: seq<Effect>)
    requires PatchStatus(cfg, issues, e) == 200 && Brings(cfg, issues[e.id], e, acts)
    ensures |Remarks(cfg, issues, e)| == |CommentsOf(acts)|
    ensures forall k :: 0 <= k < |CommentsOf(acts)| ==>
      Remarks(cfg, issues, e)[k] == Remark(e.id, e.actorId, CommentsOf(acts)[k])
  {
    ActionsBrought(cfg, issues[e.id], e);
    assert acts == ActionsOf(MoveVerdict(cfg, issues[e.id], e));
  }
}
