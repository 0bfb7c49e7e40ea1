/** What queue snapshots hold and what queue actions do, column by column, and exactly when they go through. */
module QueueLaws {
  import opened Board
  import opened EditLaws
  import opened IssueEdit
  import opened Issues
  import opened ServiceQueues
  import opened Workflow
  import opened Wrappers

  // ---- Snapshots

  /** The user's own snapshot of the queue. */
  ghost predicate Own(s: Snapshot, t: Take) {
    s.userId == t.userId && s.queueId == t.queueId
  }

  /** The places of the user's snapshots of the queue that are still to be read. */
  ghost function Readable(snapshots: seq<Snapshot>, t: Take): set<int> {
    set k | 0 <= k < |snapshots| && Own(snapshots[k], t) && t.now < snapshots[k].expiresAt
  }

  lemma {:induction false} ActiveOneMore(snapshots: seq<Snapshot>, s: Snapshot, t: Take)
    ensures Active(snapshots + [s], t.queueId, t.userId, t.now)
      == Active(snapshots, t.queueId, t.userId, t.now) + if Own(s, t) && t.now < s.expiresAt then 1 else 0
    decreases |snapshots|
  {
    if snapshots == [] {
      assert ([] + [s])[1..] == [];
    } else {
      assert (snapshots + [s])[1..] == snapshots[1..] + [s];
      ActiveOneMore(snapshots[1..], s, t);
    }
  }

  lemma {:induction false} ActiveIsReadable(snapshots: seq<Snapshot>, t: Take)
    ensures Active(snapshots, t.queueId, t.userId, t.now) == |Readable(snapshots, t)|
    decreases |snapshots|
  {
    if snapshots == [] {
      assert Readable(snapshots, t) == {};
    } else {
      var n := |snapshots| - 1;
      var front, last := snapshots[..n], snapshots[n];
      assert snapshots == front + [last];
      ActiveIsReadable(front, t);
      ActiveOneMore(front, last, t);
      assert Readable(snapshots, t) ==
        if Own(last, t) && t.now < last.expiresAt then Readable(front, t) + {n} else Readable(front, t);
    }
  }

  /** Fewer than thirty snapshots of the queue are there to be read, and at most two thousand issues found. */
  ghost predicate MayTake(snapshots: seq<Snapshot>, t: Take) {
    |Readable(snapshots, t)| < 30 && |t.found| <= 2_000
  }

  /** A new snapshot comes last: of the found issues as they are, in their order, for five minutes. */
  lemma TakenMeans(issues: Table, snapshots: seq<Snapshot>, t: Take)
    requires (forall id <- t.found :: id in issues) && MayTake(snapshots, t)
    ensures var after := Taken(issues, snapshots, t); var n := |after| - 1;
      && 0 <= n && after[..n] == Unexpired(snapshots, t.queueId, t.userId, t.now)
      && after[n].id == t.newId && Own(after[n], t) && after[n].queueVersion == t.queueVersion
      && after[n].expiresAt == t.now + 300_000 && |after[n].rows| == |t.found|
      && forall k :: 0 <= k < |t.found| ==>
        var id, row := t.found[k], after[n].rows[k];
        id in t.found && row.id == id && row.version == issues[id].version && row.summary == issues[id].summary
        && row.priority == issues[id].priority && row.statusId == issues[id].statusId
        && row.assigneeId == issues[id].assigneeId
  {
    ActiveIsReadable(snapshots, t);
    var kept := Unexpired(snapshots, t.queueId, t.userId, t.now);
    var after := Taken(issues, snapshots, t);
    assert after[..|after| - 1] == kept;
    assert forall k :: 0 <= k < |t.found| ==> t.found[k] in t.found;
  }

  lemma NotTaken(issues: Table, snapshots: seq<Snapshot>, t: Take)
    requires !MayTake(snapshots, t)
    ensures Taken(issues, snapshots, t) == snapshots
  {
    ActiveIsReadable(snapshots, t);
  }

  /** What stays is decided row by row: all but the user's own snapshots of the queue that are over. */
  lemma {:induction false} UnexpiredPiecewise(a: seq<Snapshot>, b: seq<Snapshot>, t: Take)
    ensures Unexpired(a + b, t.queueId, t.userId, t.now)
      == Unexpired(a, t.queueId, t.userId, t.now) + Unexpired(b, t.queueId, t.userId, t.now)
    decreases |a|
  {
    if a == [] {
      assert a + b == b;
    } else {
      assert (a + b)[1..] == a[1..] + b;
      UnexpiredPiecewise(a[1..], b, t);
    }
  }

  lemma UnexpiredOfOne(s: Snapshot, t: Take)
    ensures Unexpired([s], t.queueId, t.userId, t.now) == if Own(s, t) && s.expiresAt < t.now then [] else [s]
  {
    assert Unexpired([s][1..], t.queueId, t.userId, t.now) == [];
  }

  // ---- Serving

  /** The row is about a live request of the reader's project that the reader may see, at the same version. */
  ghost predicate UpToDate(issues: Table, r: Reader, row: QueueRow) {
    && row.id in issues && row.id in r.visible && issues[row.id].version == row.version
    && issues[row.id].project == r.project && !issues[row.id].archived
  }

  /** The reader's own snapshot of the queue with that id, which has not run out. */
  ghost predicate Wanted(s: Snapshot, r: Reader) {
    s.id == r.snapshotId && s.userId == r.userId && s.queueId == r.queueId && r.now < s.expiresAt
  }

  ghost predicate FirstWanted(snapshots: seq<Snapshot>, r: Reader, k: nat) {
    k < |snapshots| && Wanted(snapshots[k], r) && forall j :: 0 <= j < k ==> !Wanted(snapshots[j], r)
  }

  /** A snapshot is served exactly when it is of the queue as it is now and every row is up to date. */
  ghost predicate Serves(issues: Table, s: Snapshot, r: Reader) {
    s.queueVersion == r.queueVersion && forall row <- s.rows :: UpToDate(issues, r, row)
  }

  lemma {:induction false} ServedIff(issues: Table, snapshots: seq<Snapshot>, r: Reader)
    ensures forall rows :: ReadSnapshot(issues, snapshots, r) == Some(rows) <==>
      exists k: nat :: FirstWanted(snapshots, r, k) && Serves(issues, snapshots[k], r) && rows == snapshots[k].rows
    decreases |snapshots|
  {
    if snapshots != [] {
      var rest := snapshots[1..];
      if Wanted(snapshots[0], r) {
        FreshIffUpToDate(issues, snapshots[0].rows, r);
        assert FirstWanted(snapshots, r, 0);
        forall k: nat ensures FirstWanted(snapshots, r, k) ==> k == 0 {}
      } else {
        ServedIff(issues, rest, r);
        forall k: nat ensures FirstWanted(rest, r, k) <==> FirstWanted(snapshots, r, k + 1) {
          FirstWantedOn(snapshots, r, k);
        }
        forall k: nat | FirstWanted(snapshots, r, k) ensures k > 0 && FirstWanted(rest, r, k - 1) {}
      }
    }
  }

  lemma FirstWantedOn(snapshots: seq<Snapshot>, r: Reader, k: nat)
    requires snapshots != [] && !Wanted(snapshots[0], r)
    ensures FirstWanted(snapshots[1..], r, k) <==> FirstWanted(snapshots, r, k + 1)
  {
    if FirstWanted(snapshots[1..], r, k) {
      forall j | 0 <= j < k + 1 ensures !Wanted(snapshots[j], r) {
        if j > 0 { assert snapshots[j] == snapshots[1..][j - 1]; }
      }
    }
  }

  lemma FreshIffUpToDate(issues: Table, rows: seq<QueueRow>, r: Reader)
    ensures (exists row <- rows :: !Fresh(issues, r, row)) <==> !(forall row <- rows :: UpToDate(issues, r, row))
  {
    forall row <- rows ensures Fresh(issues, r, row) <==> UpToDate(issues, r, row) {}
  }

  // ---- Actions: what they write

  /** The columns of a selected request after an action that went through. */
  ghost predicate ActionColumns(cfg: Config, i: Issue, r: Reader, g: Agent, a: Action, t: Issue) {
    && (if a.claim then t.assigneeId == Some(r.userId) else Arrives(a.assigneeId, i.assigneeId, t.assigneeId))
    && Arrives(a.priority, i.priority, t.priority)
    && Arrives(a.statusId, i.statusId, t.statusId)
    && (if t.statusId == i.statusId then t.completedAt == i.completedAt
        else CompletedBy(cfg, a.statusId, r.now, i.completedAt, t.completedAt))
    && (match a.requestTypeId
        case None => t.issueTypeId == i.issueTypeId
        case Some(kind) => kind in g.requestTypes && t.issueTypeId == g.requestTypes[kind])
    && t.version == i.version + 1
    && t == i.(assigneeId := t.assigneeId, priority := t.priority, statusId := t.statusId,
               completedAt := t.completedAt, issueTypeId := t.issueTypeId, version := t.version)
  }

  /** Every selected request gets what the action says, and no other issue changes. */
  lemma TriageMeans(cfg: Config, issues: Table, snapshots: seq<Snapshot>, r: Reader, g: Agent, a: Action)
    requires Triaged(cfg, issues, snapshots, r, g, a).Some?
    ensures var t := Triaged(cfg, issues, snapshots, r, g, a).value;
      && t.Keys == issues.Keys
      && (forall id <- a.ids :: id in issues && ActionColumns(cfg, issues[id], r, g, a, t[id]))
      && (forall id <- issues :: id !in a.ids ==> t[id] == issues[id])
  {
    var rows, t := ReadSnapshot(issues, snapshots, r).value, Triaged(cfg, issues, snapshots, r, g, a).value;
    forall id <- a.ids ensures id in issues && ActionColumns(cfg, issues[id], r, g, a, t[id]) {
      ActedOnce(cfg, issues, r, g, a, rows, a.ids, id);
      ActedColumns(cfg, issues[id], r, g, a);
    }
    forall id <- issues | id !in a.ids ensures t[id] == issues[id] {
      ActedElsewhere(cfg, issues, r, g, a, rows, a.ids, id);
    }
  }

  lemma ActedColumns(cfg: Config, i: Issue, r: Reader, g: Agent, a: Action)
    requires References(cfg, r, g, a)
    ensures ActionColumns(cfg, i, r, g, a, Acted(cfg, i, r, g, a))
  {}

  // ---- Actions: when they go through

  predicate Enters(i: Issue, a: Action) {
    match a.statusId case Some(s) => s != i.statusId case None => false
  }

  /** The transitions let the request change its status, and bring no actions of their own. */
  ghost predicate MayEnter(cfg: Config, i: Issue, r: Reader, g: Agent, a: Action)
    requires a.statusId.Some?
  {
    var assigneeId := if a.claim then Some(Some(r.userId)) else a.assigneeId;
    var verdict := EvaluateTransition(
      cfg.transitions,
      Request(i.project, i.statusId, a.statusId.value, r.userId, g.workspaceRole, g.projectRole,
              Proposed(None, assigneeId)),
      i);
    verdict == Free || (verdict.Takes? && verdict.transition.actions == [])
  }

  ghost predicate RowGoes(cfg: Config, issues: Table, r: Reader, g: Agent, a: Action, row: QueueRow) {
    && UpToDate(issues, r, row)
    && var i := issues[row.id];
    && (a.claim ==> i.assigneeId == None)
    && (Enters(i, a) ==> MayEnter(cfg, i, r, g, a))
    && (match a.requestTypeId
        case Some(kind) => kind in g.requestTypes && g.requestTypes[kind] != i.issueTypeId ==> row.id in a.fieldsOk
        case None => true)
  }

  /** The selected requests that change their status. */
  function Entering(issues: Table, a: Action, ids: seq<Id>): set<Id> {
    set id <- ids | id in issues && Enters(issues[id], a)
  }

  /** The column has room for all of them, if any enters. */
  ghost predicate HasRoom(cfg: Config, issues: Table, r: Reader, a: Action, ids: seq<Id>) {
    Entering(issues, a, ids) != {} ==>
      var limit := LimitOf(cfg.columns, r.project, a.statusId.GetOr(0));
      limit == None || limit == Some(0)
      || Count(issues, r.project, a.statusId.GetOr(0)) + |Entering(issues, a, ids)| <= limit.value
  }

  /** One to a hundred different requests of the snapshot, something to do, and not two assignees. */
  ghost predicate Sensible(a: Action, rows: seq<QueueRow>) {
    && 1 <= |a.ids| <= 100 && (forall i, j :: 0 <= i < j < |a.ids| ==> a.ids[i] != a.ids[j])
    && (forall id <- a.ids :: exists row <- rows :: row.id == id)
    && (a.claim || a.assigneeId != None || a.priority != None || a.statusId != None || a.requestTypeId != None
        || a.participants)
    && (a.claim ==> a.assigneeId == None)
  }

  /** The assignee is an agent, the status one of the project's, the request type published. */
  ghost predicate Known(cfg: Config, r: Reader, g: Agent, a: Action) {
    && (a.claim ==> r.userId in g.agents)
    && (match a.assigneeId case Some(Some(u)) => a.claim || u in g.agents case _ => true)
    && (match a.statusId
        case Some(s) => s in cfg.statuses && cfg.statuses[s].project == r.project
        case None => true)
    && (match a.requestTypeId case Some(kind) => kind in g.requestTypes case None => true)
    && (a.participants ==> a.participantsOk)
  }

  /** An action goes through exactly when its snapshot is served, it makes sense, it refers to what there is,
      every selected request lets it, and the column it moves requests to has room for all of them. */
  lemma TriagedIff(cfg: Config, issues: Table, snapshots: seq<Snapshot>, r: Reader, g: Agent, a: Action)
    ensures Triaged(cfg, issues, snapshots, r, g, a).Some? <==>
      && ReadSnapshot(issues, snapshots, r).Some? && Sensible(a, ReadSnapshot(issues, snapshots, r).value)
      && Known(cfg, r, g, a)
      && AllGo(cfg, issues, r, g, a, ReadSnapshot(issues, snapshots, r).value, a.ids)
  {
    if ReadSnapshot(issues, snapshots, r).Some? {
      var rows := ReadSnapshot(issues, snapshots, r).value;
      forall id <- a.ids ensures Shown(rows, id) <==> exists row <- rows :: row.id == id {}
      assert WellFormed(a, rows) <==> Sensible(a, rows);
      assert References(cfg, r, g, a) <==> Known(cfg, r, g, a);
      if WellFormed(a, rows) && References(cfg, r, g, a) { ActedAllIff(cfg, issues, r, g, a, rows, a.ids); }
    }
  }

  ghost predicate AllGo(
    cfg: Config, issues: Table, r: Reader, g: Agent, a: Action, rows: seq<QueueRow>, ids: seq<Id>)
    requires forall id <- ids :: Shown(rows, id)
  {
    && (forall id <- ids :: RowGoes(cfg, issues, r, g, a, RowFor(rows, id))) && HasRoom(cfg, issues, r, a, ids)
  }

  /** The count of the status the requests enter has risen by one for each that does. */
  ghost predicate Counted(issues: Table, r: Reader, a: Action, ids: seq<Id>, t: Table) {
    a.statusId.Some? ==>
      Count(t, r.project, a.statusId.value) == Count(issues, r.project, a.statusId.value) + |Entering(issues, a, ids)|
  }

  lemma {:induction false} ActedAllIff(
    cfg: Config, issues: Table, r: Reader, g: Agent, a: Action, rows: seq<QueueRow>, ids: seq<Id>)
    requires References(cfg, r, g, a) && Distinct(ids) && forall id <- ids :: Shown(rows, id)
    ensures ActedAll(cfg, issues, r, g, a, rows, ids).Some? <==> AllGo(cfg, issues, r, g, a, rows, ids)
    ensures ActedAll(cfg, issues, r, g, a, rows, ids).Some? ==>
      Counted(issues, r, a, ids, ActedAll(cfg, issues, r, g, a, rows, ids).value)
    decreases |ids|
  {
    if ids == [] {
      assert Entering(issues, a, ids) == {};
    } else {
      var front, id := ids[..|ids| - 1], ids[|ids| - 1];
      assert ids == front + [id] && id in ids && id !in front && forall x <- front :: x in ids;
      ActedAllIff(cfg, issues, r, g, a, rows, front);
      AllGoOneMore(cfg, issues, r, g, a, rows, front, id);
      var before := ActedAll(cfg, issues, r, g, a, rows, front);
      if before.Some? { LastGoesIff(cfg, issues, r, g, a, rows, front, id, before.value); }
    }
  }

  lemma AllGoOneMore(
    cfg: Config, issues: Table, r: Reader, g: Agent, a: Action, rows: seq<QueueRow>, front: seq<Id>, id: Id)
    requires id !in front && forall x <- front + [id] :: Shown(rows, x)
    ensures (forall x <- front :: Shown(rows, x)) && Shown(rows, id)
    ensures AllGo(cfg, issues, r, g, a, rows, front + [id]) <==>
      (&& AllGo(cfg, issues, r, g, a, rows, front) && RowGoes(cfg, issues, r, g, a, RowFor(rows, id))
       && HasRoom(cfg, issues, r, a, front + [id]))
  {
    assert id in front + [id] && forall x :: x in front + [id] <==> x in front || x == id;
    if HasRoom(cfg, issues, r, a, front + [id]) { FewerHaveRoom(cfg, issues, r, a, front, id); }
  }

  /** The last request goes on what the others left exactly if its row does and there is room for it too. */
  lemma LastGoesIff(
    cfg: Config, issues: Table, r: Reader, g: Agent, a: Action, rows: seq<QueueRow>, front: seq<Id>, id: Id, t: Table)
    requires References(cfg, r, g, a) && id !in front && Shown(rows, id) && forall x <- front :: Shown(rows, x)
    requires ActedAll(cfg, issues, r, g, a, rows, front) == Some(t)
    requires HasRoom(cfg, issues, r, a, front) && Counted(issues, r, a, front, t)
    ensures Actionable(cfg, t, r, g, a, RowFor(rows, id)) <==>
      RowGoes(cfg, issues, r, g, a, RowFor(rows, id)) && HasRoom(cfg, issues, r, a, front + [id])
    ensures Actionable(cfg, t, r, g, a, RowFor(rows, id)) ==>
      Counted(issues, r, a, front + [id], t[id := Acted(cfg, t[id], r, g, a)])
  {
    if id in issues {
      ActedElsewhere(cfg, issues, r, g, a, rows, front, id);
      EnteringOneMore(issues, a, front, id);
      RowActionableIff(cfg, issues, r, g, a, front, RowFor(rows, id), t);
      if Fresh(t, r, RowFor(rows, id)) && a.statusId.Some? { ActedCount(cfg, t, r, g, a, id); }
    }
  }

  lemma RowActionableIff(
    cfg: Config, issues: Table, r: Reader, g: Agent, a: Action, front: seq<Id>, row: QueueRow, t: Table)
    requires row.id !in front && t.Keys == issues.Keys && row.id in issues && t[row.id] == issues[row.id]
    requires References(cfg, r, g, a) && HasRoom(cfg, issues, r, a, front) && Counted(issues, r, a, front, t)
    ensures Actionable(cfg, t, r, g, a, row) <==>
      RowGoes(cfg, issues, r, g, a, row) && HasRoom(cfg, issues, r, a, front + [row.id])
  {
    EnteringOneMore(issues, a, front, row.id);
    if Enters(issues[row.id], a) && UpToDate(issues, r, row) { RoomIff(cfg, issues, r, a, front, row.id, t); }
  }

  lemma RoomIff(cfg: Config, issues: Table, r: Reader, a: Action, front: seq<Id>, id: Id, t: Table)
    requires id !in front && id in issues && Enters(issues[id], a) && Counted(issues, r, a, front, t)
    ensures HasRoom(cfg, issues, r, a, front + [id]) <==> !WipReached(cfg, t, r.project, a.statusId.value)
  {
    EnteringOneMore(issues, a, front, id);
    assert id in Entering(issues, a, front + [id]);
  }

  lemma ActedCount(cfg: Config, t: Table, r: Reader, g: Agent, a: Action, id: Id)
    requires References(cfg, r, g, a) && a.statusId.Some?
    requires id in t && t[id].project == r.project && !t[id].archived
    ensures Count(t[id := Acted(cfg, t[id], r, g, a)], r.project, a.statusId.value)
      == Count(t, r.project, a.statusId.value) + if Enters(t[id], a) then 1 else 0
  {
    var after := t[id := Acted(cfg, t[id], r, g, a)];
    var here, there := Here(t, r.project, a.statusId.value), Here(after, r.project, a.statusId.value);
    assert there == if Enters(t[id], a) then here + {id} else here;
  }

  lemma EnteringOneMore(issues: Table, a: Action, front: seq<Id>, id: Id)
    requires id !in front
    ensures Entering(issues, a, front + [id])
      == Entering(issues, a, front) + if id in issues && Enters(issues[id], a) then {id} else {}
    ensures |Entering(issues, a, front + [id])|
      == |Entering(issues, a, front)| + if id in issues && Enters(issues[id], a) then 1 else 0
  {
    assert forall x :: x in front + [id] <==> x in front || x == id;
  }

  lemma FewerHaveRoom(cfg: Config, issues: Table, r: Reader, a: Action, front: seq<Id>, id: Id)
    requires id !in front && HasRoom(cfg, issues, r, a, front + [id])
    ensures HasRoom(cfg, issues, r, a, front)
  {
    EnteringOneMore(issues, a, front, id);
  }
}
