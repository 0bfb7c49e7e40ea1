/** The transition guard: which configured transition a status change takes, if any. */
module Workflow {
  import opened Wrappers
  import opened Issues

  datatype Role = Admin | Member | Viewer | Owner

  datatype Rule =
    | RoleRule(roles: seq<Role>)
    | AssigneeRule
    | ReporterRule
    | IssueTypeRule(issueTypeIds: seq<Id>)
    | FieldEquals(fieldId: Id, value: string)
    | ResolutionRule
    | RequiredAssignee
    | RequiredField(field: Option<Id>)
    | OtherRule

  datatype Target = Actor | Reporter | User(id: Id) | NoTarget

  /** Comment texts are trimmed and cut to length. */
  datatype Effect =
    | Assign(target: Target)
    | SetPriority(priority: Option<Priority>)
    | SetField(fieldId: Id, value: string)
    | Comment(text: string)
    | OtherEffect

  /** Configured transitions, in the order of their position and id. */
  datatype Transition = Transition(
    project: Id, fromStatusId: Id, toStatusId: Id, enabled: bool,
    conditions: seq<Rule>, validators: seq<Rule>, actions: seq<Effect>)

  /** The part of a proposed change that validators look at; an outer None is an absent key. */
  datatype Proposed = Proposed(resolution: Option<Option<string>>, assigneeId: Option<Option<Id>>)

  datatype Request = Request(
    project: Id, fromStatusId: Id, toStatusId: Id, actorId: Id, workspaceRole: Role, projectRole: Option<Role>,
    proposed: Proposed)

  predicate Holds(rule: Rule, r: Request, issue: Issue) {
    match rule
    case RoleRule(roles) => r.projectRole.GetOr(r.workspaceRole) in roles
    case AssigneeRule => issue.assigneeId == Some(r.actorId)
    case ReporterRule => issue.reporterId == r.actorId
    case IssueTypeRule(ids) => issue.issueTypeId in ids
    case FieldEquals(fieldId, value) => fieldId in issue.fields && issue.fields[fieldId] == value
    case _ => false
  }

  predicate Matches(conditions: seq<Rule>, r: Request, issue: Issue) {
    forall rule <- conditions :: Holds(rule, r, issue)
  }

  predicate NonEmpty(s: Option<string>) {
    s.Some? && s.value != ""
  }

  /** A validator that is not satisfied; rules of other kinds never complain. */
  predicate Violated(rule: Rule, issue: Issue, p: Proposed) {
    match rule
    case ResolutionRule => !(NonEmpty(p.resolution.GetOr(None)) || NonEmpty(issue.resolution))
    case RequiredAssignee =>
      !(p.assigneeId != Some(None) && (p.assigneeId.GetOr(None).Some? || issue.assigneeId.Some?))
    case RequiredField(field) => field.None? || field.value !in issue.fields
    case _ => false
  }

  predicate Passes(t: Transition, issue: Issue, p: Proposed) {
    forall rule <- t.validators :: !Violated(rule, issue, p)
  }

  predicate Applies(t: Transition, r: Request) {
    t.enabled && t.project == r.project && t.fromStatusId == r.fromStatusId && t.toStatusId == r.toStatusId
  }

  predicate Open(t: Transition, r: Request, issue: Issue) {
    Applies(t, r) && Matches(t.conditions, r, issue)
  }

  predicate AnyEnabled(transitions: seq<Transition>, project: Id) {
    exists t <- transitions :: t.enabled && t.project == project
  }

  /** `k` is the place of the first transition that is open to the request. */
  ghost predicate FirstOpen(transitions: seq<Transition>, r: Request, issue: Issue, k: nat) {
    && k < |transitions| && Open(transitions[k], r, issue)
    && forall j :: 0 <= j < k ==> !Open(transitions[j], r, issue)
  }

  function FirstMatch(transitions: seq<Transition>, r: Request, issue: Issue): (k: Option<nat>)
    ensures k.Some? ==> FirstOpen(transitions, r, issue, k.value)
    ensures k.None? ==> forall t <- transitions :: !Open(t, r, issue)
  {
    if transitions == [] then None
    else if Open(transitions[0], r, issue) then Some(0)
    else
      match FirstMatch(transitions[1..], r, issue)
      case None => None
      case Some(k) =>
        assert forall j :: 0 < j <= k ==> transitions[j] == transitions[1..][j - 1];
        Some(k + 1)
  }

  datatype Verdict = Free | Takes(transition: Transition) | Refused

  /** Free when nothing is enabled in the project; otherwise the first open transition decides, which is
      taken if it passes its validators. */
  function EvaluateTransition(transitions: seq<Transition>, r: Request, issue: Issue): (v: Verdict)
    ensures v.Free? <==> !AnyEnabled(transitions, r.project)
    ensures v.Takes? <==>
      exists k: nat :: FirstOpen(transitions, r, issue, k) && Passes(transitions[k], issue, r.proposed)
    ensures v.Takes? ==> exists k: nat :: FirstOpen(transitions, r, issue, k) && transitions[k] == v.transition
    ensures v.Takes? ==> v.transition in transitions && Open(v.transition, r, issue)
  {
    assert forall k: nat :: FirstOpen(transitions, r, issue, k) ==> transitions[k] in transitions;
    if !AnyEnabled(transitions, r.project) then Free
    else
      match FirstMatch(transitions, r, issue)
      case None => Refused
      case Some(k) => if Passes(transitions[k], issue, r.proposed) then Takes(transitions[k]) else Refused
  }
}
