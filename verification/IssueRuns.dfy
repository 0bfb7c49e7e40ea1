/** Runs that interleave everything that writes issues: scenario changes and their publication, the editor,
    the public API, bulk operations, rules, moves in the hierarchy, queue snapshots and triage, creation,
    archiving and governed deletion, and the settings of statuses, columns and portal customers.  What
    version numbers promise, they promise across all of it. */
module IssueRuns {
  import opened Board
  import opened IssueEdit
  import opened Issues
  import opened Publications
  import opened ServiceQueues
  import opened Workflow
  import opened Wrappers
  import opened Writers
  import Hierarchy
  import S = Scenarios

  /** `applied` lists the rollback entries of all publications so far, `used` the ids ever given out. */
  datatype World = World(
    cfg: Config, issues: Table, changes: seq<S.Change>, snapshots: seq<Snapshot>, applied: seq<S.Rollback>,
    used: set<Id>)

  datatype Step =
    | SaveChange(save: S.Save)
    | CloneScenario(source: Id, target: Id, visible: set<Id>, firstId: Id)
    | Publish(publish: S.Publish)
    | Edit(edit: IssueEdit.Edit)
    | Api(api: ApiEdit)
    | Bulk(item: BulkItem)
    | Prioritise(id: Id, priority: Priority)
    | AddLabel(id: Id, name: string)
    | Secure(id: Id)
    | Reparent(move: Hierarchy.Move)
    | TakeSnapshot(take: Take)
    | Triage(reader: Reader, agent: Agent, action: Action)
    | Create(rows: Table)
    | Archive(id: Id, archived: bool)
    | Purge(ids: set<Id>)
    | MergeReporters(reported: set<Id>, source: Id, target: Id)
    | AddStatus(id: Id, status: StatusRow, columnId: Id)
    | SetCategory(project: Id, statusId: Id, category: Category)
    | DeleteStatus(project: Id, statusId: Id, replacementId: Id)
    | EditTransitions(transitions: seq<Transition>)
    | EditColumn(project: Id, columnId: Id, nameOk: bool, input: LimitInput)

  /** The copies a clone of a scenario starts with: same issue, same base, same patch. */
  function Copies(changes: seq<S.Change>, source: Id, target: Id, visible: set<Id>, firstId: Id): (r: seq<S.Change>)
    ensures forall c <- r :: exists o <- changes :: c == o.(id := c.id, scenarioId := target)
  {
    if changes == [] then []
    else if changes[0].scenarioId == source && changes[0].issueId in visible then
      [changes[0].(id := firstId, scenarioId := target)] + Copies(changes[1..], source, target, visible, firstId + 1)
    else Copies(changes[1..], source, target, visible, firstId)
  }

  ghost function Next(w: World, s: Step): World {
    match s
    case SaveChange(save) => w.(changes := S.Saved(w.issues, w.changes, save))
    case CloneScenario(source, target, visible, firstId) =>
      w.(changes := w.changes + Copies(w.changes, source, target, visible, firstId))
    case Publish(p) =>
      (match S.Published(w.issues, w.changes, p)
       case None => w
       case Some((t, record)) => w.(issues := t, applied := w.applied + record.rollback))
    case Edit(e) => w.(issues := PatchedTable(w.cfg, w.issues, e))
    case Api(e) => w.(issues := ApiPatched(w.cfg, w.issues, e))
    case Bulk(b) => w.(issues := BulkApplied(w.cfg, w.issues, b))
    case Prioritise(id, priority) => w.(issues := Prioritised(w.issues, id, priority))
    case AddLabel(id, name) => w.(issues := Labelled(w.issues, id, name))
    case Secure(id) => w.(issues := Secured(w.issues, id))
    case Reparent(m) => w.(issues := Hierarchy.Moved(w.issues, m))
    case TakeSnapshot(t) => w.(snapshots := Taken(w.issues, w.snapshots, t))
    case Triage(r, g, a) => w.(issues := Triaged(w.cfg, w.issues, w.snapshots, r, g, a).GetOr(w.issues))
    case Create(rows) =>
      if Creatable(w.cfg, w.issues, w.used, rows)
      then w.(issues := w.issues + rows, used := w.used + rows.Keys)
      else w
    case Archive(id, archived) => w.(issues := Archived(w.issues, id, archived))
    case Purge(ids) => w.(issues := Purged(w.issues, ids))
    case MergeReporters(reported, source, target) => w.(issues := Merged(w.issues, reported, source, target))
    case AddStatus(id, status, columnId) =>
      if id in w.used then w
      else
        w.(cfg := w.cfg.(statuses := w.cfg.statuses[id := status],
                         columns := w.cfg.columns + [Column(columnId, status.project, id, None)]),
           used := w.used + {id})
    case SetCategory(project, statusId, category) =>
      if !StatusKnown(w.cfg.statuses, project, statusId) then w
      else w.(cfg := w.cfg.(statuses := w.cfg.statuses[statusId := StatusRow(project, category)]))
    case DeleteStatus(project, statusId, replacementId) =>
      if !Replaces(w.cfg.statuses, project, statusId, replacementId) then w
      else w.(cfg := WithoutStatusOf(w.cfg, statusId), issues := Remapped(w.issues, project, statusId, replacementId))
    case EditTransitions(transitions) => w.(cfg := w.cfg.(transitions := transitions))
    case EditColumn(project, columnId, nameOk, input) =>
      w.(cfg := w.cfg.(columns := Limited(w.cfg.columns, project, columnId, nameOk, input)))
  }

  ghost function Run(w: World, steps: seq<Step>): World
    decreases |steps|
  {
    if steps == [] then w else Run(Next(w, steps[0]), steps[1..])
  }

  /** Issues only refer to what is there, statuses belong to the project of their issues, and ids come from
      what was given out. */
  ghost predicate Stored(w: World) {
    && ParentsStored(w.issues) && w.issues.Keys <= w.used && w.cfg.statuses.Keys <= w.used
    && forall id <- w.issues :: StatusKnown(w.cfg.statuses, w.issues[id].project, w.issues[id].statusId)
  }

  /** The discipline of a step: rows keep their content or gain a version, and no id comes back. */
  ghost predicate Advances(w: World, v: World) {
    && Disciplined(w.issues, v.cfg.statuses.Keys, v.issues) && w.used <= v.used
    && (forall id <- v.issues :: id in w.used ==> id in w.issues)
    && forall id <- v.cfg.statuses :: id in w.used ==> id in w.cfg.statuses
  }

  /** A step that only writes issues: same ids, same places, parents and statuses that are there. */
  ghost predicate Rewrites(w: World, v: World) {
    && v == w.(issues := v.issues) && v.issues.Keys == w.issues.Keys
    && forall id <- w.issues ::
      && v.issues[id].project == w.issues[id].project
      && StatusKnown(w.cfg.statuses, v.issues[id].project, v.issues[id].statusId)
      && (v.issues[id].parentId.Some? ==> v.issues[id].parentId.value in w.issues)
      && (v.issues[id].version > w.issues[id].version
          || v.issues[id] == w.issues[id].(reporterId := v.issues[id].reporterId, labels := v.issues[id].labels))
  }

  lemma RewriteAdvances(w: World, v: World)
    requires Stored(w) && Rewrites(w, v)
    ensures Stored(v) && Advances(w, v)
  {
    forall id <- w.issues
      ensures SameContent(v.cfg.statuses.Keys, v.issues, w.issues[id], v.issues[id])
        || v.issues[id].version > w.issues[id].version
    {
      assert Kept(v.issues, w.issues[id].parentId) == w.issues[id].parentId;
    }
  }

  lemma PublishRewrites(w: World, s: Step)
    requires Stored(w) && s.Publish? && S.Published(w.issues, w.changes, s.publish).Some?
    ensures Rewrites(w, w.(issues := Next(w, s).issues))
  {
    var valid := S.ValidOf(w.issues, w.changes, s.publish);
    forall id <- w.issues
      ensures var a, b := w.issues[id], Next(w, s).issues[id];
        && b == b.(project := a.project, statusId := a.statusId)
        && (b.parentId.Some? ==> b.parentId.value in w.issues) && (b.version > a.version || b == a)
    {
      var c := PublishedRow(w.issues, w.changes, s.publish, id);
      if c.Some? { AppliedStores(w.issues, valid, c.value); }
    }
  }

  /** What triage did to one row, if it did anything. */
  lemma TriagedRow(w: World, s: Step, id: Id)
    requires s.Triage? && Triaged(w.cfg, w.issues, w.snapshots, s.reader, s.agent, s.action).Some? && id in w.issues
    ensures References(w.cfg, s.reader, s.agent, s.action)
    ensures id !in s.action.ids ==> Next(w, s).issues[id] == w.issues[id]
    ensures id in s.action.ids ==>
      && Next(w, s).issues[id] == Acted(w.cfg, w.issues[id], s.reader, s.agent, s.action)
      && w.issues[id].project == s.reader.project && !w.issues[id].archived
      && (s.action.claim ==> w.issues[id].assigneeId.None?)
  {
    var rows := ReadSnapshot(w.issues, w.snapshots, s.reader).value;
    if id in s.action.ids {
      ActedOnce(w.cfg, w.issues, s.reader, s.agent, s.action, rows, s.action.ids, id);
    } else {
      ActedElsewhere(w.cfg, w.issues, s.reader, s.agent, s.action, rows, s.action.ids, id);
    }
  }

  lemma TriageRewrites(w: World, s: Step)
    requires Stored(w) && s.Triage? && Triaged(w.cfg, w.issues, w.snapshots, s.reader, s.agent, s.action).Some?
    ensures Rewrites(w, Next(w, s))
  {
    forall id <- w.issues
      ensures var a, b := w.issues[id], Next(w, s).issues[id];
        && b == b.(project := a.project, parentId := a.parentId)
        && StatusKnown(w.cfg.statuses, b.project, b.statusId) && (b.version > a.version || b == a)
    {
      TriagedRow(w, s, id);
    }
  }

  lemma OneRowRewrites(w: World, id: Id, row: Issue)
    requires Stored(w) && id in w.issues && row.project == w.issues[id].project
    requires StatusKnown(w.cfg.statuses, row.project, row.statusId)
    requires row.parentId == w.issues[id].parentId || Kept(w.issues, row.parentId) == row.parentId
    requires row.version > w.issues[id].version || row == w.issues[id].(labels := row.labels)
    ensures Rewrites(w, w.(issues := w.issues[id := row]))
  {}

  predicate WritesOneRow(s: Step) {
    s.Edit? || s.Api? || s.Bulk? || s.Prioritise? || s.AddLabel? || s.Secure? || s.Reparent? || s.Archive?
  }

  /** The row a single-row step is about. */
  function RowOf(s: Step): Id
    requires WritesOneRow(s)
  {
    match s
    case Edit(e) => e.id
    case Api(e) => e.id
    case Bulk(b) => b.id
    case Reparent(m) => m.issueId
    case Prioritise(id, _) => id
    case AddLabel(id, _) => id
    case Secure(id) => id
    case Archive(id, _) => id
  }

  lemma SingleRewrites(w: World, s: Step)
    requires Stored(w) && WritesOneRow(s)
    ensures Rewrites(w, Next(w, s))
    ensures forall x <- w.issues :: x != RowOf(s) ==> Next(w, s).issues[x] == w.issues[x]
  {
    var v, id := Next(w, s), RowOf(s);
    if v.issues != w.issues {
      assert v.issues == w.issues[id := v.issues[id]];
      OneRowRewrites(w, id, v.issues[id]);
    }
  }

  lemma CreateAdvances(w: World, s: Step)
    requires Stored(w) && s.Create?
    ensures Stored(Next(w, s)) && Advances(w, Next(w, s))
  {
    if Creatable(w.cfg, w.issues, w.used, s.rows) {
      forall id <- Next(w, s).issues
        ensures var row := Next(w, s).issues[id];
          && StatusKnown(w.cfg.statuses, row.project, row.statusId)
          && Kept(Next(w, s).issues, row.parentId) == row.parentId
      {
        if id in s.rows { assert NewRow(w.cfg, w.issues + s.rows, id, s.rows[id]); }
      }
    }
  }

  lemma PurgeAdvances(w: World, s: Step)
    requires Stored(w) && s.Purge?
    ensures Stored(Next(w, s)) && Advances(w, Next(w, s))
  {}

  lemma AddStatusAdvances(w: World, s: Step)
    requires Stored(w) && s.AddStatus?
    ensures Stored(Next(w, s)) && Advances(w, Next(w, s))
  {
    if s.id !in w.used {
      assert s.id !in w.cfg.statuses;
      SameIssuesAdvance(w, Next(w, s));
    }
  }

  lemma SetCategoryAdvances(w: World, s: Step)
    requires Stored(w) && s.SetCategory?
    ensures Stored(Next(w, s)) && Advances(w, Next(w, s))
  {
    SameIssuesAdvance(w, Next(w, s));
  }

  lemma SameIssuesAdvance(w: World, v: World)
    requires Stored(w) && v.issues == w.issues && w.used <= v.used && v.cfg.statuses.Keys <= v.used
    requires forall id <- v.cfg.statuses :: id in w.used ==> id in w.cfg.statuses
    requires forall id <- w.cfg.statuses ::
      id in v.cfg.statuses && v.cfg.statuses[id].project == w.cfg.statuses[id].project
    ensures Stored(v) && Advances(w, v)
  {
    forall id <- w.issues ensures SameContent(v.cfg.statuses.Keys, v.issues, w.issues[id], v.issues[id]) {
      assert Kept(v.issues, w.issues[id].parentId) == w.issues[id].parentId;
    }
  }

  lemma DeleteStatusAdvances(w: World, s: Step)
    requires Stored(w) && s.DeleteStatus?
    ensures Stored(Next(w, s)) && Advances(w, Next(w, s))
  {
    if Replaces(w.cfg.statuses, s.project, s.statusId, s.replacementId) {
      RemappedAdvances(w, Next(w, s), s.project, s.statusId, s.replacementId);
    } else {
      RewriteAdvances(w, w);
    }
  }

  lemma RemappedAdvances(w: World, v: World, project: Id, statusId: Id, replacementId: Id)
    requires Stored(w) && Replaces(w.cfg.statuses, project, statusId, replacementId)
    requires v.issues == Remapped(w.issues, project, statusId, replacementId)
    requires v.cfg.statuses == w.cfg.statuses - {statusId} && v.used == w.used
    ensures Stored(v) && Advances(w, v)
  {
    forall id <- w.issues
      ensures SameContent(v.cfg.statuses.Keys, v.issues, w.issues[id], v.issues[id])
      ensures StatusKnown(v.cfg.statuses, v.issues[id].project, v.issues[id].statusId)
    {
      assert Kept(v.issues, w.issues[id].parentId) == w.issues[id].parentId;
    }
  }

  lemma PublishAdvances(w: World, s: Step)
    requires Stored(w) && s.Publish?
    ensures Stored(Next(w, s)) && Advances(w, Next(w, s))
  {
    var v := Next(w, s);
    if S.Published(w.issues, w.changes, s.publish).Some? {
      PublishRewrites(w, s);
      RewriteAdvances(w, w.(issues := v.issues));
    } else {
      RewriteAdvances(w, w);
    }
  }

  lemma TriageAdvances(w: World, s: Step)
    requires Stored(w) && s.Triage?
    ensures Stored(Next(w, s)) && Advances(w, Next(w, s))
  {
    if Triaged(w.cfg, w.issues, w.snapshots, s.reader, s.agent, s.action).Some? { TriageRewrites(w, s); }
    RewriteAdvances(w, Next(w, s));
  }

  /** Every step keeps references sound and is disciplined. */
  lemma StepAdvances(w: World, s: Step)
    requires Stored(w)
    ensures Stored(Next(w, s)) && Advances(w, Next(w, s))
  {
    var v := Next(w, s);
    if WritesOneRow(s) {
      SingleRewrites(w, s);
      RewriteAdvances(w, v);
    } else {
      match s
      case Publish(_) => PublishAdvances(w, s);
      case Triage(_, _, _) => TriageAdvances(w, s);
      case Create(_) => CreateAdvances(w, s);
      case Purge(_) => PurgeAdvances(w, s);
      case AddStatus(_, _, _) => AddStatusAdvances(w, s);
      case SetCategory(_, _, _) => SetCategoryAdvances(w, s);
      case DeleteStatus(_, _, _) => DeleteStatusAdvances(w, s);
      case MergeReporters(_, _, _) => RewriteAdvances(w, v);
      case _ => RewriteAdvances(w, w);
    }
  }

  lemma {:induction false} RunStaysStored(w: World, steps: seq<Step>)
    requires Stored(w)
    ensures Stored(Run(w, steps))
    decreases |steps|
  {
    if steps != [] {
      StepAdvances(w, steps[0]);
      RunStaysStored(Next(w, steps[0]), steps[1..]);
    }
  }

  /** An id that was given out and is gone never comes back. */
  lemma {:induction false} GoneStaysGone(w: World, steps: seq<Step>, id: Id)
    requires Stored(w) && id in w.used && id !in w.issues
    ensures id !in Run(w, steps).issues
    decreases |steps|
  {
    if steps != [] {
      StepAdvances(w, steps[0]);
      GoneStaysGone(Next(w, steps[0]), steps[1..], id);
    }
  }

  // ---- Undoing a publication

  ghost predicate Mentions(rollback: seq<S.Rollback>, id: Id) {
    exists r <- rollback :: r.issueId == id
  }

  lemma TouchedIsMentioned(valid: seq<S.Change>, id: Id)
    ensures S.Touches(valid, id) ==> Mentions(S.Rollbacks(valid), id)
  {
    if S.Touches(valid, id) {
      var k :| 0 <= k < |valid| && valid[k].issueId == id;
      assert S.Rollbacks(valid)[k] in S.Rollbacks(valid);
    }
  }

  /** The parent a snapshot names is none, or still there. */
  predicate ParentThere(issues: Table, base: S.Base) {
    base.parentId.Some? ==> base.parentId.value in issues
  }

  /** Writing back the rollback snapshot of a publication restores an issue to the last column, version
      aside, exactly when the parent it was recorded under is none or still there; it restores every other
      column in any case, and an issue without an entry was never touched. */
  lemma RollbackRestoresIff(issues: Table, changes: seq<S.Change>, p: S.Publish)
    requires S.BasesHold(issues, changes) && S.Published(issues, changes, p).Some?
    ensures var (t, record) := S.Published(issues, changes, p).value;
      && t.Keys == issues.Keys
      && (forall r <- record.rollback ::
            && r.issueId in issues && r.version == issues[r.issueId].version
            && var undone := S.WriteBack(t[r.issueId], r.snapshot).(version := r.version);
            && (undone == issues[r.issueId] <==> ParentThere(issues, r.snapshot))
            && undone.(parentId := issues[r.issueId].parentId) == issues[r.issueId])
      && (forall id <- issues :: !Mentions(record.rollback, id) ==> t[id] == issues[id])
  {
    var valid := S.ValidOf(issues, changes, p);
    var (t, record) := S.Published(issues, changes, p).value;
    forall r <- record.rollback
      ensures r.issueId in issues && r.version == issues[r.issueId].version
      ensures var undone := S.WriteBack(t[r.issueId], r.snapshot).(version := r.version);
        && (undone == issues[r.issueId] <==> ParentThere(issues, r.snapshot))
        && undone.(parentId := issues[r.issueId].parentId) == issues[r.issueId]
    {
      var k :| 0 <= k < |valid| && record.rollback[k] == r;
      ValidChangeRow(issues, changes, p, valid[k]);
      assert S.BaseHolds(issues, valid[k].issueId, valid[k].baseVersion, valid[k].baseSnapshot);
    }
    forall id <- issues | !Mentions(record.rollback, id) ensures t[id] == issues[id] {
      TouchedIsMentioned(valid, id);
      var c := PublishedRow(issues, changes, p, id);
    }
  }

  /** Such a parent can be gone: purging an issue leaves the changes of its children publishable. */
  lemma PurgeLeavesPublishable(w: World, ids: set<Id>, authorized: set<Id>, c: S.Change)
    requires S.Verdict(w.issues, authorized, c).None? && c.issueId !in Gone(w.issues, ids)
    ensures var v := Next(w, Purge(ids));
      && S.Verdict(v.issues, authorized, c).None?
      && (c.baseSnapshot.parentId.Some? && c.baseSnapshot.parentId.value in Gone(w.issues, ids) ==>
            !ParentThere(v.issues, c.baseSnapshot))
  {}

  // ---- What versions buy: faithful snapshots, faithful bases, one application per version

  predicate BaseKnown(used: set<Id>, c: S.Change) {
    c.issueId in used && (c.baseSnapshot.parentId.Some? ==> c.baseSnapshot.parentId.value in used)
  }

  ghost predicate BasesKnown(used: set<Id>, changes: seq<S.Change>) {
    forall c <- changes :: BaseKnown(used, c)
  }

  /** Every applied entry is about an earlier version of its issue. */
  ghost predicate Past(used: set<Id>, issues: Table, applied: seq<S.Rollback>) {
    forall r <- applied :: r.issueId in used && (r.issueId in issues ==> r.version < issues[r.issueId].version)
  }

  /** No two applied entries are about the same version of the same issue. */
  ghost predicate OncePerVersion(applied: seq<S.Rollback>) {
    forall i, j :: 0 <= i < j < |applied| ==>
      applied[i].issueId != applied[j].issueId || applied[i].version != applied[j].version
  }

  ghost predicate Sound(w: World) {
    && Stored(w) && AllFaithful(w.used, w.cfg.statuses.Keys, w.issues, w.snapshots)
    && S.BasesHold(w.issues, w.changes) && BasesKnown(w.used, w.changes)
    && Past(w.used, w.issues, w.applied) && OncePerVersion(w.applied)
  }

  lemma KeptTwice(w: World, v: World, parentId: Option<Id>)
    requires Advances(w, v) && (parentId.Some? ==> parentId.value in w.used)
    ensures Kept(v.issues, Kept(w.issues, parentId)) == Kept(v.issues, parentId)
  {
    if parentId.Some? && parentId.value in v.issues {
      var id := parentId.value;
      assert id in v.issues && id in w.used;
      assert id in w.issues;
    }
  }

  lemma BasesHoldUnder(w: World, v: World)
    requires Advances(w, v) && S.BasesHold(w.issues, w.changes) && BasesKnown(w.used, w.changes)
    ensures S.BasesHold(v.issues, w.changes) && BasesKnown(v.used, w.changes)
  {
    forall c <- w.changes ensures S.BaseHolds(v.issues, c.issueId, c.baseVersion, c.baseSnapshot) {
      assert S.BaseHolds(w.issues, c.issueId, c.baseVersion, c.baseSnapshot) && BaseKnown(w.used, c);
      KeptTwice(w, v, c.baseSnapshot.parentId);
    }
  }

  lemma PastStays(w: World, v: World)
    requires Advances(w, v) && Past(w.used, w.issues, w.applied)
    ensures Past(v.used, v.issues, w.applied)
  {
    forall r <- w.applied ensures r.issueId in v.issues ==> r.version < v.issues[r.issueId].version {
      if r.issueId in v.issues { assert r.issueId in w.issues; }
    }
  }

  lemma SavedIsKnown(w: World, s: Step)
    requires Stored(w) && s.SaveChange? && BasesKnown(w.used, w.changes)
    ensures BasesKnown(w.used, Next(w, s).changes)
  {
    var saved := Next(w, s).changes;
    forall c <- saved ensures BaseKnown(w.used, c) {
      var k :| 0 <= k < |saved| && saved[k] == c;
      if k < |w.changes| { assert w.changes[k] in w.changes && BaseKnown(w.used, w.changes[k]); }
    }
  }

  /** A publication is about current versions of different issues, and leaves all of them behind. */
  lemma PublicationRows(issues: Table, changes: seq<S.Change>, p: S.Publish)
    requires S.Published(issues, changes, p).Some?
    ensures var (t, record) := S.Published(issues, changes, p).value;
      && (forall r <- record.rollback ::
            r.issueId in issues && r.version == issues[r.issueId].version && t[r.issueId].version == r.version + 1)
      && (forall i, j :: 0 <= i < j < |record.rollback| ==> record.rollback[i].issueId != record.rollback[j].issueId)
  {
    var valid := S.ValidOf(issues, changes, p);
    var (t, record) := S.Published(issues, changes, p).value;
    forall k | 0 <= k < |valid|
      ensures var r := record.rollback[k];
        r.issueId in issues && r.version == issues[r.issueId].version && t[r.issueId].version == r.version + 1
      ensures forall i :: 0 <= i < |valid| && i != k ==> record.rollback[i].issueId != record.rollback[k].issueId
    {
      assert valid[k] in valid;
      S.AppliedOnce(issues, valid, k);
    }
  }

  lemma OnceAfter(used: set<Id>, issues: Table, applied: seq<S.Rollback>, more: seq<S.Rollback>)
    requires Past(used, issues, applied) && OncePerVersion(applied)
    requires forall r <- more :: r.issueId in issues && r.version == issues[r.issueId].version
    requires forall i, j :: 0 <= i < j < |more| ==> more[i].issueId != more[j].issueId
    ensures OncePerVersion(applied + more)
  {
    var n, all := |applied|, applied + more;
    forall i, j | 0 <= i < j < |all| ensures all[i].issueId != all[j].issueId || all[i].version != all[j].version {
      if i < n <= j { assert applied[i] in applied && all[j] == more[j - n] && more[j - n] in more; }
      if n <= i { assert all[i] == more[i - n] && all[j] == more[j - n]; }
    }
  }

  lemma PublishKeepsOnce(w: World, s: Step)
    requires Stored(w) && s.Publish? && S.Published(w.issues, w.changes, s.publish).Some?
    requires Past(w.used, w.issues, w.applied) && OncePerVersion(w.applied)
    ensures Past(w.used, Next(w, s).issues, Next(w, s).applied) && OncePerVersion(Next(w, s).applied)
  {
    var (t, record) := S.Published(w.issues, w.changes, s.publish).value;
    PublicationRows(w.issues, w.changes, s.publish);
    OnceAfter(w.used, w.issues, w.applied, record.rollback);
    StepAdvances(w, s);
    PastStays(w, Next(w, s));
  }

  lemma StepKeepsSound(w: World, s: Step)
    requires Sound(w)
    ensures Sound(Next(w, s))
  {
    var v := Next(w, s);
    StepAdvances(w, s);
    FaithfulUnder(w.used, w.cfg.statuses.Keys, w.issues, v.cfg.statuses.Keys, v.issues, w.snapshots);
    BasesHoldUnder(w, v);
    PastStays(w, v);
    match s
    case SaveChange(save) =>
      S.SavedBasesHold(w.issues, w.changes, save);
      SavedIsKnown(w, s);
    case TakeSnapshot(t) => TakenFaithful(w.used, w.cfg.statuses.Keys, w.issues, w.snapshots, t);
    case Publish(p) => if S.Published(w.issues, w.changes, p).Some? { PublishKeepsOnce(w, s); }
    case _ =>
  }

  /** Over any run: at most one scenario change is applied per issue and version across all scenarios,
      and snapshots and recorded bases stay true or visibly outdated. */
  lemma {:induction false} RunKeepsSound(w: World, steps: seq<Step>)
    requires Sound(w)
    ensures Sound(Run(w, steps))
    decreases |steps|
  {
    if steps != [] {
      StepKeepsSound(w, steps[0]);
      RunKeepsSound(Next(w, steps[0]), steps[1..]);
    }
  }

  ghost predicate Clean(w: World) {
    Stored(w) && w.changes == [] && w.snapshots == [] && w.applied == []
  }

  /** From a start without proposals and snapshots, whatever ran: writing back what a publication recorded
      restores an issue exactly when the parent recorded for it is none or still there, ... */
  lemma AnyPublicationCanBeUndoneIff(w: World, steps: seq<Step>, p: S.Publish)
    requires Clean(w)
    ensures var v := Run(w, steps);
      S.Published(v.issues, v.changes, p).Some? ==>
        var (t, record) := S.Published(v.issues, v.changes, p).value;
        forall r <- record.rollback ::
          && r.issueId in v.issues && r.issueId in t
          && var undone := S.WriteBack(t[r.issueId], r.snapshot).(version := r.version);
          (undone == v.issues[r.issueId] <==> ParentThere(v.issues, r.snapshot))
  {
    var v := Run(w, steps);
    RunKeepsSound(w, steps);
    if S.Published(v.issues, v.changes, p).Some? { RollbackRestoresIff(v.issues, v.changes, p); }
  }

  /** ... and a row of a snapshot that is served shows what the live issue says, its status exactly when
      the status it shows was not deleted since. */
  lemma AnyServedSnapshotAgrees(w: World, steps: seq<Step>, r: Reader)
    requires Clean(w)
    ensures var v := Run(w, steps);
      var served := ReadSnapshot(v.issues, v.snapshots, r);
      served.Some? ==> forall row <- served.value ::
        && row.id in v.issues && Agrees(row, v.issues[row.id])
        && (row.statusId == v.issues[row.id].statusId <==> row.statusId in v.cfg.statuses)
  {
    var v := Run(w, steps);
    RunKeepsSound(w, steps);
    if ReadSnapshot(v.issues, v.snapshots, r).Some? {
      ServedRowsAgree(v.used, v.cfg.statuses.Keys, v.issues, v.snapshots, r);
    }
  }

  // ---- Served statuses, in terms of the deletions themselves

  ghost predicate ShownStatusesExist(w: World) {
    forall s <- w.snapshots, row <- s.rows :: row.statusId in w.cfg.statuses
  }

  lemma StatusesStayShown(w: World, s: Step)
    requires Stored(w) && ShownStatusesExist(w) && !s.DeleteStatus?
    ensures ShownStatusesExist(Next(w, s))
  {
    var v := Next(w, s);
    forall x <- v.snapshots, row <- x.rows ensures row.statusId in v.cfg.statuses {
      if x !in w.snapshots {
        var k :| 0 <= k < |x.rows| && x.rows[k] == row;
        assert s.take.found[k] in s.take.found;
        assert row == ServiceQueues.RowOf(s.take.found[k], w.issues[s.take.found[k]]);
      }
    }
  }

  lemma {:induction false} RunKeepsShown(w: World, steps: seq<Step>)
    requires Stored(w) && ShownStatusesExist(w) && forall s <- steps :: !s.DeleteStatus?
    ensures ShownStatusesExist(Run(w, steps))
    decreases |steps|
  {
    if steps != [] {
      StepAdvances(w, steps[0]);
      StatusesStayShown(w, steps[0]);
      RunKeepsShown(Next(w, steps[0]), steps[1..]);
    }
  }

  /** While no status is deleted, every served row shows the live status too. */
  lemma ServedStatusesAgree(w: World, steps: seq<Step>, r: Reader)
    requires Clean(w) && forall s <- steps :: !s.DeleteStatus?
    ensures var v := Run(w, steps);
      var served := ReadSnapshot(v.issues, v.snapshots, r);
      served.Some? ==> forall row <- served.value :: row.id in v.issues && row.statusId == v.issues[row.id].statusId
  {
    var v := Run(w, steps);
    AnyServedSnapshotAgrees(w, steps, r);
    RunKeepsShown(w, steps);
    if ReadSnapshot(v.issues, v.snapshots, r).Some? {
      var rows := ReadSnapshot(v.issues, v.snapshots, r).value;
      var s :| s in v.snapshots && s.rows == rows;
    }
  }

  lemma {:induction false} ReadUnchanged(before: Table, after: Table, snapshots: seq<Snapshot>, r: Reader)
    requires forall row :: Fresh(before, r, row) == Fresh(after, r, row)
    ensures ReadSnapshot(after, snapshots, r) == ReadSnapshot(before, snapshots, r)
    decreases |snapshots|
  {
    if snapshots != [] { ReadUnchanged(before, after, snapshots[1..], r); }
  }

  /** Deleting a status leaves a snapshot served as it was; its rows still all show their live status
      exactly when none of them shows the deleted one. */
  lemma DeletionOutdatesIff(w: World, project: Id, statusId: Id, replacementId: Id, r: Reader)
    requires Sound(w) && ShownStatusesExist(w) && Replaces(w.cfg.statuses, project, statusId, replacementId)
    requires ReadSnapshot(w.issues, w.snapshots, r).Some?
    ensures var v, rows := Next(w, DeleteStatus(project, statusId, replacementId)),
                           ReadSnapshot(w.issues, w.snapshots, r).value;
      && ReadSnapshot(v.issues, v.snapshots, r) == Some(rows)
      && (forall row <- rows :: row.id in v.issues)
      && ((forall row <- rows :: row.statusId == v.issues[row.id].statusId)
            <==> forall row <- rows :: row.statusId != statusId)
  {
    var s := DeleteStatus(project, statusId, replacementId);
    var v := Next(w, s);
    ReadUnchanged(w.issues, v.issues, w.snapshots, r);
    StepKeepsSound(w, s);
    ServedRowsAgree(v.used, v.cfg.statuses.Keys, v.issues, v.snapshots, r);
    var rows := ReadSnapshot(w.issues, w.snapshots, r).value;
    var x :| x in w.snapshots && x.rows == rows;
    assert forall row <- rows :: row.statusId in w.cfg.statuses;
  }
}
