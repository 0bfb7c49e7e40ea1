/** Governed deletion: discovery under legal holds, preview, approval, and execution with
    failures, crashes and retries.  One organization; its tables are one list of rows.  Deleting an
    issue takes its comments, attachments and notifications along, whatever holds say about those. */
module Retention {
  import opened Basics
  import opened Wrappers
  import AuditChain

  type Id = int

  datatype DataClass =
    Issues | Comments | Attachments | Notifications | RealtimeEvents | IntegrationDeliveries
  | AutomationHistory | AuditEvents

  /** A stored record.  `stamp` is the time its class is aged by, if it has one: the archiving time of an
      issue, the deletion time of a comment, the update time of a delivery, else the creation time. */
  datatype Row = Row(
    id: Id, dataClass: DataClass, stamp: Option<int>, workspace: Id, project: Option<Id>,
    issue: Option<Id>, user: Option<Id>, issueArchived: bool, issueEvent: bool)

  datatype Scope = OrganizationScope | WorkspaceScope | ProjectScope | IssueScope | UserScope

  datatype Hold = Hold(scope: Scope, scopeId: Option<Id>, startsAt: int, endsAt: Option<int>, releasedAt: Option<int>)

  /** The definitions that can be placed. */
  predicate Proper(h: Hold) {
    && (h.scope.OrganizationScope? || h.scopeId.Some?) && h.releasedAt.None?
    && (h.endsAt.Some? ==> h.endsAt.value > h.startsAt)
  }

  /** A hold on less than the organization says on what. */
  predicate Scoped(h: Hold) {
    h.scope.OrganizationScope? || h.scopeId.Some?
  }

  /** What a hold is matched against. */
  datatype Candidate = Candidate(id: Id, workspace: Id, project: Option<Id>, issue: Option<Id>, user: Option<Id>)

  datatype Status = Previewed | Approved | Running | Failed | Completed

  datatype Evidence = Evidence(eligibleAtExecution: nat, deletedCount: nat, completedAt: int)

  /** The sorted id list of the preview is kept as the set it lists. */
  datatype Job = Job(
    dataClass: DataClass, cutoff: int, candidateIds: set<Id>, candidateCount: nat, previewHash: string,
    status: Status, approvedAt: Option<int>, attempts: nat, evidence: Option<Evidence>)

  // ---- Discovery

  predicate Active(h: Hold, now: int) {
    h.releasedAt.None? && h.startsAt <= now && (h.endsAt.None? || h.endsAt.value > now)
  }

  predicate Matches(c: Candidate, h: Hold) {
    match h.scope
    case OrganizationScope => true
    case WorkspaceScope => h.scopeId == Some(c.workspace)
    case ProjectScope => h.scopeId == c.project
    case IssueScope => h.scopeId == c.issue
    case UserScope => h.scopeId == c.user
  }

  predicate Held(c: Candidate, holds: seq<Hold>, now: int) {
    exists h <- holds :: Active(h, now) && Matches(c, h)
  }

  /** The fields discovery selects differ by class. */
  function CandidateOf(r: Row): Candidate {
    match r.dataClass
    case Issues => Candidate(r.id, r.workspace, r.project, Some(r.id), r.user)
    case Comments => Candidate(r.id, r.workspace, r.project, r.issue, r.user)
    case Attachments => Candidate(r.id, r.workspace, r.project, r.issue, None)
    case Notifications => Candidate(r.id, r.workspace, r.project, r.issue, r.user)
    case RealtimeEvents => Candidate(r.id, r.workspace, r.project, if r.issueEvent then r.issue else None, None)
    case IntegrationDeliveries => Candidate(r.id, r.workspace, r.project, None, None)
    case AutomationHistory => Candidate(r.id, r.workspace, r.project, None, None)
    case AuditEvents => Candidate(r.id, r.workspace, None, None, r.user)
  }

  /** Old enough for its class: an attachment must also belong to an archived issue. */
  predicate Past(r: Row, dataClass: DataClass, cutoff: int) {
    r.dataClass == dataClass && r.stamp.Some? && r.stamp.value < cutoff && (dataClass.Attachments? ==> r.issueArchived)
  }

  predicate Deletable(r: Row, holds: seq<Hold>, dataClass: DataClass, cutoff: int, now: int) {
    Past(r, dataClass, cutoff) && !Held(CandidateOf(r), holds, now)
  }

  function Discover(rows: seq<Row>, holds: seq<Hold>, dataClass: DataClass, cutoff: int, now: int): set<Id> {
    set r <- rows | Deletable(r, holds, dataClass, cutoff, now) :: r.id
  }

  // ---- The batches of one execution

  function Ids(rows: seq<Row>): set<Id> {
    set r <- rows :: r.id
  }

  function OfClass(rows: seq<Row>, dataClass: DataClass): seq<Row> {
    if rows == [] then []
    else (if rows[0].dataClass == dataClass then [rows[0]] else []) + OfClass(rows[1..], dataClass)
  }

  function Singles(rows: seq<Row>, ids: set<Id>): seq<set<Id>> {
    if rows == [] then []
    else (if rows[0].id in ids then [{rows[0].id}] else []) + Singles(rows[1..], ids)
  }

  function OfWorkspace(rows: seq<Row>, workspace: Id): seq<Row> {
    if rows == [] then []
    else (if rows[0].workspace == workspace then [rows[0]] else []) + OfWorkspace(rows[1..], workspace)
  }

  /** The audit events before the first that may not go. */
  function PrefixIds(events: seq<Row>, ids: set<Id>): set<Id> {
    if events == [] || events[0].id !in ids then {} else {events[0].id} + PrefixIds(events[1..], ids)
  }

  function Prefixes(rows: seq<Row>, ids: set<Id>, workspaces: seq<Id>): seq<set<Id>> {
    if workspaces == [] then []
    else [PrefixIds(OfWorkspace(rows, workspaces[0]), ids)] + Prefixes(rows, ids, workspaces[1..])
  }

  /** What one execution deletes, transaction by transaction: attachments one by one, audit events
      by workspace (`workspaces` in their sorted order), everything else at once. */
  function Batches(rows: seq<Row>, dataClass: DataClass, ids: set<Id>, workspaces: seq<Id>): seq<set<Id>> {
    var own := OfClass(rows, dataClass);
    match dataClass
    case Attachments => Singles(own, ids)
    case AuditEvents => Prefixes(own, ids, workspaces)
    case _ => [Ids(own) * ids]
  }

  /** Rows that refer to an issue and that the database deletes together with it. */
  predicate Hangs(r: Row, issues: set<Id>) {
    && (r.dataClass.Comments? || r.dataClass.Attachments? || r.dataClass.Notifications?)
    && r.issue.Some? && r.issue.value in issues
  }

  function Cascade(rows: seq<Row>, issues: set<Id>): set<Id> {
    set r <- rows | Hangs(r, issues) :: r.id
  }

  function Without(rows: seq<Row>, gone: set<Id>): seq<Row> {
    if rows == [] then []
    else (if rows[0].id in gone then [] else [rows[0]]) + Without(rows[1..], gone)
  }

  function Union(batches: seq<set<Id>>): set<Id> {
    if batches == [] then {} else Union(batches[..|batches| - 1]) + batches[|batches| - 1]
  }

  // ---- The state and its steps

  /** One deleted record with the circumstances of its deletion. */
  datatype Deletion = Deletion(job: nat, row: Row, holds: seq<Hold>, now: int)

  datatype State = State(rows: seq<Row>, holds: seq<Hold>, jobs: seq<Job>, log: seq<Deletion>)

  /** How an execution ends: it completes, an error stops it after some batches and marks the
      job, or the process dies after some batches and leaves the job running. */
  datatype Ending = Completes | Throws(after: nat) | Dies(after: nat)

  datatype Step =
    | Environment(rows: seq<Row>)
    | Preview(dataClass: DataClass, cutoff: int, now: int, hash: string)
    | Approve(job: nat, hash: string, now: int)
    | PlaceHold(hold: Hold, known: bool)
    | Release(index: nat, now: int)
    | Execute(job: nat, now: int, workspaces: seq<Id>, ending: Ending)

  /** Only an approved job that has not completed runs. */
  predicate Runs(s: State, j: nat) {
    j < |s.jobs| && s.jobs[j].approvedAt.Some? && s.jobs[j].status in {Approved, Running, Failed}
  }

  function EligibleIds(s: State, j: nat, now: int): set<Id>
    requires j < |s.jobs|
  {
    s.jobs[j].candidateIds * Discover(s.rows, s.holds, s.jobs[j].dataClass, s.jobs[j].cutoff, now)
  }

  /** What the batches up to the end take away. */
  function Done(batches: seq<set<Id>>, ending: Ending): set<Id> {
    if ending.Completes? || ending.after >= |batches| then Union(batches) else Union(batches[..ending.after])
  }

  /** The ids an execution gets to delete before it ends. */
  function Gone(s: State, j: nat, now: int, workspaces: seq<Id>, ending: Ending): set<Id>
    requires j < |s.jobs|
  {
    Done(Batches(s.rows, s.jobs[j].dataClass, EligibleIds(s, j, now), workspaces), ending)
  }

  /** Everything that goes in an execution which gets to delete `gone`. */
  function Lost(rows: seq<Row>, dataClass: DataClass, gone: set<Id>): set<Id> {
    if dataClass.Issues? then gone + Cascade(rows, gone) else gone
  }

  function LogOf(rows: seq<Row>, gone: set<Id>, j: nat, holds: seq<Hold>, now: int): seq<Deletion> {
    if rows == [] then []
    else (if rows[0].id in gone then [Deletion(j, rows[0], holds, now)] else []) + LogOf(rows[1..], gone, j, holds, now)
  }

  function Closed(run: Job, eligible: nat, count: nat, now: int, ending: Ending): Job {
    match ending
    case Throws(_) => run.(status := Failed)
    case Dies(_) => run
    case Completes => run.(status := Completed, evidence := Some(Evidence(eligible, count, now)))
  }

  function AfterRun(s: State, j: nat, now: int, gone: set<Id>, ending: Ending): Job
    requires j < |s.jobs|
  {
    var deleted := |s.rows| - |Without(s.rows, gone)|;
    Closed(s.jobs[j].(status := Running, attempts := s.jobs[j].attempts + 1),
           |EligibleIds(s, j, now)|, if deleted >= 0 then deleted else 0, now, ending)
  }

  function Next(s: State, step: Step): State {
    match step
    case Environment(rows) => s.(rows := rows)
    case Preview(dataClass, cutoff, now, hash) =>
      var ids := Discover(s.rows, s.holds, dataClass, cutoff, now);
      s.(jobs := s.jobs + [Job(dataClass, cutoff, ids, |ids|, hash, Previewed, None, 0, None)])
    case Approve(j, hash, now) =>
      if j < |s.jobs| && s.jobs[j].status == Previewed && s.jobs[j].previewHash == hash then
        s.(jobs := s.jobs[j := s.jobs[j].(status := Approved, approvedAt := Some(now))])
      else s
    case PlaceHold(hold, known) => if Proper(hold) && known then s.(holds := s.holds + [hold]) else s
    case Release(h, now) =>
      if h < |s.holds| && s.holds[h].releasedAt.None? then
        s.(holds := s.holds[h := s.holds[h].(releasedAt := Some(now))])
      else s
    case Execute(j, now, workspaces, ending) =>
      if !Runs(s, j) then s
      else
        var gone := Gone(s, j, now, workspaces, ending);
        var lost := Lost(s.rows, s.jobs[j].dataClass, gone);
        State(
          Without(s.rows, lost), s.holds, s.jobs[j := AfterRun(s, j, now, gone, ending)],
          s.log + LogOf(s.rows, lost, j, s.holds, now))
  }

  function Run(s: State, steps: seq<Step>): State
    decreases |steps|
  {
    if steps == [] then s else Run(Next(s, steps[0]), steps[1..])
  }

  lemma OneMoreHold(c: Candidate, holds: seq<Hold>, hold: Hold, t: int)
    ensures Held(c, holds + [hold], t) <==> Held(c, holds, t) || (Active(hold, t) && Matches(c, hold))
  {
    assert hold in holds + [hold] && forall h <- holds :: h in holds + [hold];
  }

  // ---- The stored state, changed in place

  class RetentionStore {
    var rows: seq<Row>
    var holds: seq<Hold>
    var jobs: seq<Job>
    ghost var log: seq<Deletion>

    ghost function Snapshot(): State
      reads this
    {
      State(rows, holds, jobs, log)
    }

    constructor (rows: seq<Row>)
      ensures Snapshot() == State(rows, [], [], [])
    {
      this.rows, holds, jobs, log := rows, [], [], [];
    }

    method PreviewDeletion(dataClass: DataClass, cutoff: int, now: int, hash: string) returns (job: nat)
      modifies this
      ensures Snapshot() == Next(old(Snapshot()), Preview(dataClass, cutoff, now, hash)) && job == old(|jobs|)
      ensures forall id :: id in jobs[job].candidateIds <==>
        exists r <- rows :: r.id == id && Deletable(r, holds, dataClass, cutoff, now)
      ensures |jobs| == job + 1 && jobs[..job] == old(jobs) && rows == old(rows) && holds == old(holds)
      ensures var j := jobs[job];
        && j.dataClass == dataClass && j.cutoff == cutoff && j.candidateCount == |j.candidateIds|
        && j.previewHash == hash && j.status == Previewed && j.approvedAt == None
        && j.attempts == 0 && j.evidence == None
      ensures Sound(old(Snapshot())) ==> Sound(Snapshot()) && forall r <- rows ::
        r.id in jobs[job].candidateIds <==> Ripe(r, dataClass, cutoff) && !Protected(r, holds, now)
    {
      if Sound(Snapshot()) {
        StepKeepsSound(Snapshot(), Preview(dataClass, cutoff, now, hash));
        PreviewMeans(Snapshot(), dataClass, cutoff, now, hash);
      }
      var ids := Discover(rows, holds, dataClass, cutoff, now);
      job := |jobs|;
      jobs := jobs + [Job(dataClass, cutoff, ids, |ids|, hash, Previewed, None, 0, None)];
    }

    method ApproveJob(job: nat, hash: string, now: int) returns (ok: bool)
      modifies this
      ensures Snapshot() == Next(old(Snapshot()), Approve(job, hash, now))
      ensures ok <==> Snapshot() != old(Snapshot())
      ensures ok <==> job < |old(jobs)| && old(jobs)[job].status == Previewed && old(jobs)[job].previewHash == hash
      ensures rows == old(rows) && holds == old(holds) && |jobs| == |old(jobs)|
      ensures forall k :: 0 <= k < |jobs| && k != job ==> jobs[k] == old(jobs)[k]
      ensures ok ==> jobs[job] == old(jobs)[job].(status := Approved, approvedAt := Some(now))
    {
      if job >= |jobs| { return false; }
      if jobs[job].status != Previewed || hash != jobs[job].previewHash { return false; }
      jobs := jobs[job := jobs[job].(status := Approved, approvedAt := Some(now))];
      ok := true;
    }

    /** From then on whatever the hold matches is held while it is active; `known` says that what it is
        placed on belongs to the organization. */
    method PlaceHold(hold: Hold, known: bool) returns (status: int)
      modifies this
      ensures Snapshot() == Next(old(Snapshot()), Step.PlaceHold(hold, known))
      ensures status == if !Proper(hold) then 400 else if !known then 404 else 201
      ensures status == 400 <==>
        || (hold.scope != OrganizationScope && hold.scopeId == None) || hold.releasedAt != None
        || (match hold.endsAt case Some(end) => end <= hold.startsAt case None => false)
      ensures status != 201 ==> holds == old(holds)
      ensures status == 201 ==> forall c, t ::
        Held(c, holds, t) <==> Held(c, old(holds), t) || (Active(hold, t) && Matches(c, hold))
    {
      if !Proper(hold) { return 400; }
      if !known { return 404; }
      forall c, t { OneMoreHold(c, holds, hold, t); }
      holds := holds + [hold];
      status := 201;
    }

    /** The hold stops counting at any time; the others count as before. */
    method ReleaseHold(hold: nat, now: int)
      modifies this
      ensures Snapshot() == Next(old(Snapshot()), Release(hold, now))
      ensures hold < |old(holds)| ==> forall t :: !Active(holds[hold], t)
      ensures hold < |old(holds)| ==> holds[hold] == old(holds)[hold].(releasedAt :=
        if old(holds)[hold].releasedAt.Some? then old(holds)[hold].releasedAt else Some(now))
      ensures rows == old(rows) && jobs == old(jobs)
      ensures |holds| == |old(holds)| && forall k :: 0 <= k < |holds| && k != hold ==> holds[k] == old(holds)[k]
    {
      if hold < |holds| && holds[hold].releasedAt.None? {
        holds := holds[hold := holds[hold].(releasedAt := Some(now))];
      }
    }

    /** Batch after batch until the end; `count` adds up what each removed. */
    method DeleteBatches(batches: seq<set<Id>>, ending: Ending) returns (count: nat)
      modifies this`rows
      ensures rows == Without(old(rows), Done(batches, ending))
      ensures count == |old(rows)| - |rows|
    {
      var stop := if ending.Completes? || ending.after >= |batches| then |batches| else ending.after;
      count := 0;
      WithoutNothing(rows);
      for i := 0 to stop
        invariant rows == Without(old(rows), Union(batches[..i])) && count == |old(rows)| - |rows|
      {
        var remaining := Without(rows, batches[i]);
        WithoutTwice(old(rows), Union(batches[..i]), batches[i]);
        WithoutShrinks(rows, batches[i]);
        assert batches[..i + 1][..i] == batches[..i];
        count := count + (|rows| - |remaining|);
        rows := remaining;
      }
      assert batches[..|batches|] == batches;
    }

    /** Issues go in one statement, and what hangs on them goes with them uncounted. */
    method DeleteIssues(ids: set<Id>, ending: Ending) returns (count: nat)
      modifies this`rows
      ensures var gone := Done(Batches(old(rows), Issues, ids, []), ending);
        && rows == Without(old(rows), Lost(old(rows), Issues, gone))
        && count == |old(rows)| - |Without(old(rows), gone)|
    {
      ghost var batches := Batches(rows, Issues, ids, []);
      assert batches == [Ids(OfClass(rows, Issues)) * ids] && batches[..0] == [] && batches[..1] == batches;
      if !ending.Completes? && ending.after == 0 {
        WithoutNothing(rows);
        assert Lost(rows, Issues, {}) == {};
        return 0;
      }
      var gone := Ids(OfClass(rows, Issues)) * ids;
      assert Union(batches[..0]) == {} && Union(batches) == gone;
      var remaining := Without(rows, gone);
      WithoutShrinks(rows, gone);
      count := |rows| - |remaining|;
      WithoutTwice(rows, gone, Cascade(rows, gone));
      rows := Without(remaining, Cascade(rows, gone));
    }

    method Delete(dataClass: DataClass, ids: set<Id>, workspaces: seq<Id>, ending: Ending) returns (count: nat)
      modifies this`rows
      ensures var gone := Done(Batches(old(rows), dataClass, ids, workspaces), ending);
        && rows == Without(old(rows), Lost(old(rows), dataClass, gone))
        && count == |old(rows)| - |Without(old(rows), gone)|
    {
      if dataClass.Issues? {
        count := DeleteIssues(ids, ending);
      } else {
        count := DeleteBatches(Batches(rows, dataClass, ids, workspaces), ending);
      }
    }

    /** The execution as the program runs it: the job row is marked first, then batch after batch
        is deleted and counted, then the job is closed with its evidence. */
    method ExecuteDeletion(job: nat, now: int, workspaces: seq<Id>, ending: Ending)
      modifies this
      ensures Snapshot() == Next(old(Snapshot()), Execute(job, now, workspaces, ending))
    {
      if job >= |jobs| || jobs[job].status == Completed { return; }
      if jobs[job].approvedAt.None? || jobs[job].status !in {Approved, Running, Failed} { return; }
      ghost var s := Snapshot();
      var ids := jobs[job].candidateIds * Discover(rows, holds, jobs[job].dataClass, jobs[job].cutoff, now);
      jobs := jobs[job := jobs[job].(status := Running, attempts := jobs[job].attempts + 1)];
      ghost var gone := Gone(s, job, now, workspaces, ending);
      log := log + LogOf(rows, Lost(rows, jobs[job].dataClass, gone), job, holds, now);
      var count := Delete(jobs[job].dataClass, ids, workspaces, ending);
      ClosedIsAfterRun(s, job, now, gone, count, ending);
      CloseJob(job, |ids|, count, now, ending);
    }

    method CloseJob(job: nat, eligible: nat, count: nat, now: int, ending: Ending)
      requires job < |jobs|
      modifies this`jobs
      ensures jobs == old(jobs)[job := Closed(old(jobs[job]), eligible, count, now, ending)]
    {
      match ending {
        case Throws(_) => jobs := jobs[job := jobs[job].(status := Failed)];
        case Dies(_) =>
        case Completes =>
          jobs := jobs[job := jobs[job].(status := Completed, evidence := Some(Evidence(eligible, count, now)))];
      }
    }
  }

  lemma ClosedIsAfterRun(s: State, j: nat, now: int, gone: set<Id>, count: nat, ending: Ending)
    requires j < |s.jobs| && count == |s.rows| - |Without(s.rows, gone)|
    ensures var run := s.jobs[j].(status := Running, attempts := s.jobs[j].attempts + 1);
      s.jobs[j := run][j := Closed(run, |EligibleIds(s, j, now)|, count, now, ending)]
      == s.jobs[j := AfterRun(s, j, now, gone, ending)]
  {}

  // ---- Facts about deletion

  lemma {:induction false} WithoutNothing(rows: seq<Row>)
    ensures Without(rows, {}) == rows
    decreases |rows|
  {
    if rows != [] { WithoutNothing(rows[1..]); }
  }

  lemma {:induction false} WithoutTwice(rows: seq<Row>, a: set<Id>, b: set<Id>)
    ensures Without(Without(rows, a), b) == Without(rows, a + b)
    decreases |rows|
  {
    if rows != [] {
      WithoutTwice(rows[1..], a, b);
      if rows[0].id !in a {
        assert Without(rows, a)[1..] == Without(rows[1..], a);
      } else {
        assert Without(rows, a) == Without(rows[1..], a);
      }
    }
  }

  lemma {:induction false} WithoutShrinks(rows: seq<Row>, gone: set<Id>)
    ensures |Without(rows, gone)| <= |rows|
    ensures forall r :: r in Without(rows, gone) <==> r in rows && r.id !in gone
    decreases |rows|
  {
    if rows != [] { WithoutShrinks(rows[1..], gone); }
  }

  ghost predicate DistinctIds(rows: seq<Row>) {
    forall i, j :: 0 <= i < j < |rows| ==> rows[i].id != rows[j].id
  }

  /** Deleting by id removes at most one row for each id. */
  lemma {:induction false} DeletedAtMost(rows: seq<Row>, gone: set<Id>)
    requires DistinctIds(rows)
    ensures |rows| - |Without(rows, gone)| <= |gone|
    decreases |rows|
  {
    if rows != [] {
      var id := rows[0].id;
      DeletedAtMost(rows[1..], gone - {id});
      WithoutOther(rows[1..], gone, id);
    }
  }

  lemma {:induction false} WithoutOther(rows: seq<Row>, gone: set<Id>, id: Id)
    requires forall r <- rows :: r.id != id
    ensures Without(rows, gone) == Without(rows, gone - {id})
    decreases |rows|
  {
    if rows != [] {
      assert rows[0] in rows && forall r <- rows[1..] :: r in rows;
      WithoutOther(rows[1..], gone, id);
    }
  }

  lemma {:induction false} BatchesWithin(rows: seq<Row>, ids: set<Id>, workspaces: seq<Id>)
    ensures forall b <- Singles(rows, ids) :: b <= ids
    ensures forall b <- Prefixes(rows, ids, workspaces) :: b <= ids
    decreases |rows| + |workspaces|
  {
    if rows != [] { BatchesWithin(rows[1..], ids, []); }
    if workspaces != [] {
      BatchesWithin(rows, ids, workspaces[1..]);
      PrefixWithin(OfWorkspace(rows, workspaces[0]), ids);
    }
  }

  lemma {:induction false} PrefixWithin(events: seq<Row>, ids: set<Id>)
    ensures PrefixIds(events, ids) <= ids
    decreases |events|
  {
    if events != [] { PrefixWithin(events[1..], ids); }
  }

  /** For the audit log the batch of a workspace is what pruning its chain takes away. */
  lemma {:induction false} PrefixIsPruned(rows: seq<Row>, events: seq<AuditChain.Event>, ids: set<Id>)
    requires |rows| == |events| && forall i :: 0 <= i < |rows| ==> rows[i].id == events[i].id
    ensures PrefixIds(rows, ids) == Ids(rows[..AuditChain.EligiblePrefix(events, ids)])
    decreases |rows|
  {
    if rows != [] && rows[0].id in ids {
      PrefixIsPruned(rows[1..], events[1..], ids);
      var n := AuditChain.EligiblePrefix(events[1..], ids);
      assert rows[..n + 1] == [rows[0]] + rows[1..][..n];
      assert forall r :: r in rows[..n + 1] <==> r == rows[0] || r in rows[1..][..n];
    }
  }

  lemma {:induction false} UnionWithin(batches: seq<set<Id>>, ids: set<Id>)
    requires forall b <- batches :: b <= ids
    ensures Union(batches) <= ids
    decreases |batches|
  {
    if batches != [] {
      var n := |batches| - 1;
      assert batches[n] in batches && forall b <- batches[..n] :: b in batches;
      UnionWithin(batches[..n], ids);
    }
  }

  /** Whatever its class and however it ends, an execution deletes eligible ids only. */
  lemma GoneIsEligible(s: State, j: nat, now: int, workspaces: seq<Id>, ending: Ending)
    requires j < |s.jobs|
    ensures Gone(s, j, now, workspaces, ending) <= EligibleIds(s, j, now)
  {
    var ids, own := EligibleIds(s, j, now), OfClass(s.rows, s.jobs[j].dataClass);
    var batches := Batches(s.rows, s.jobs[j].dataClass, ids, workspaces);
    BatchesWithin(own, ids, workspaces);
    assert forall b <- batches :: b <= ids;
    UnionWithin(batches, ids);
    if !ending.Completes? && ending.after < |batches| {
      assert forall b <- batches[..ending.after] :: b in batches;
      UnionWithin(batches[..ending.after], ids);
    }
  }

  lemma {:induction false} LoggedRows(rows: seq<Row>, gone: set<Id>, j: nat, holds: seq<Hold>, now: int)
    ensures forall d :: d in LogOf(rows, gone, j, holds, now) <==>
      d.job == j && d.holds == holds && d.now == now && d.row in rows && d.row.id in gone
    decreases |rows|
  {
    if rows != [] { LoggedRows(rows[1..], gone, j, holds, now); }
  }

  // ---- What every run keeps

  /** The row went because an issue went that an execution of its job deleted as covered. */
  ghost predicate Swept(jobs: seq<Job>, log: seq<Deletion>, d: Deletion) {
    exists e <- log ::
      && e.job == d.job && e.holds == d.holds && e.now == d.now && e.row.dataClass.Issues?
      && Covered(jobs, e) && Hangs(d.row, {e.row.id})
  }

  /** The deletion was covered by its job: an approved candidate, past the cutoff, free of
      active holds when the execution looked. */
  predicate Covered(jobs: seq<Job>, d: Deletion) {
    && d.job < |jobs| && jobs[d.job].approvedAt.Some? && d.row.id in jobs[d.job].candidateIds
    && Deletable(d.row, d.holds, jobs[d.job].dataClass, jobs[d.job].cutoff, d.now)
  }

  predicate Consistent(job: Job) {
    && job.candidateCount == |job.candidateIds|
    && (job.status == Completed <==> job.evidence.Some?)
    && (job.status == Previewed <==> job.approvedAt.None?)
    && (job.evidence.Some? ==>
          job.evidence.value.deletedCount <= job.evidence.value.eligibleAtExecution <= job.candidateCount)
  }

  /** What hangs on an issue is filed under the issue's workspace and project. */
  ghost predicate Filed(rows: seq<Row>) {
    forall r <- rows, i <- rows :: i.dataClass.Issues? && Hangs(r, {i.id}) ==>
      r.workspace == i.workspace && r.project == i.project
  }

  ghost predicate Accounted(jobs: seq<Job>, log: seq<Deletion>) {
    forall d <- log :: Covered(jobs, d) || Swept(jobs, log, d)
  }

  ghost predicate Sound(s: State) {
    && DistinctIds(s.rows) && Filed(s.rows) && (forall h <- s.holds :: Scoped(h))
    && (forall job <- s.jobs :: Consistent(job)) && Accounted(s.jobs, s.log)
  }

  /** What a preview froze, and what completion closed, stays. */
  ghost predicate Frozen(before: State, after: State) {
    |before.jobs| <= |after.jobs| && forall j :: 0 <= j < |before.jobs| ==> FrozenJob(before.jobs[j], after.jobs[j])
  }

  predicate FrozenJob(a: Job, b: Job) {
    && b.dataClass == a.dataClass && b.cutoff == a.cutoff && b.candidateIds == a.candidateIds
    && b.candidateCount == a.candidateCount && b.previewHash == a.previewHash
    && (a.approvedAt.Some? ==> b.approvedAt == a.approvedAt)
    && (a.status == Completed ==> b == a)
  }

  lemma DistinctIdUnique(rows: seq<Row>, a: Row, b: Row)
    requires DistinctIds(rows) && a in rows && b in rows && a.id == b.id
    ensures a == b
  {
    var i :| 0 <= i < |rows| && rows[i] == a;
    var k :| 0 <= k < |rows| && rows[k] == b;
  }

  lemma {:induction false} WithoutDistinct(rows: seq<Row>, gone: set<Id>)
    requires DistinctIds(rows)
    ensures DistinctIds(Without(rows, gone))
    decreases |rows|
  {
    if rows != [] {
      WithoutDistinct(rows[1..], gone);
      WithoutShrinks(rows[1..], gone);
      var rest := Without(rows[1..], gone);
      forall k | 0 <= k < |rest| ensures rest[k].id != rows[0].id {
        assert rest[k] in rows[1..];
      }
    }
  }

  lemma CoveredStays(s: State, t: State, d: Deletion)
    requires Frozen(s, t) && Covered(s.jobs, d)
    ensures Covered(t.jobs, d)
  {
    assert FrozenJob(s.jobs[d.job], t.jobs[d.job]);
  }

  lemma AccountedStays(s: State, t: State, log: seq<Deletion>)
    requires Frozen(s, t) && Accounted(s.jobs, log)
    ensures Accounted(t.jobs, log)
  {
    forall d <- log ensures Covered(t.jobs, d) || Swept(t.jobs, log, d) {
      if Covered(s.jobs, d) {
        CoveredStays(s, t, d);
      } else {
        var e :| e in log && e.job == d.job && e.holds == d.holds && e.now == d.now && e.row.dataClass.Issues?
          && Covered(s.jobs, e) && Hangs(d.row, {e.row.id});
        CoveredStays(s, t, e);
      }
    }
  }

  lemma AccountedTogether(jobs: seq<Job>, log: seq<Deletion>, more: seq<Deletion>)
    requires Accounted(jobs, log) && Accounted(jobs, more)
    ensures Accounted(jobs, log + more)
  {
    forall d <- log + more ensures Covered(jobs, d) || Swept(jobs, log + more, d) {
      if !Covered(jobs, d) {
        var part := if d in log then log else more;
        assert Swept(jobs, part, d);
        var e :| e in part && e.job == d.job && e.holds == d.holds && e.now == d.now && e.row.dataClass.Issues?
          && Covered(jobs, e) && Hangs(d.row, {e.row.id});
        assert e in log + more;
      }
    }
  }

  lemma RunJobConsistent(s: State, j: nat, now: int, workspaces: seq<Id>, ending: Ending)
    requires Sound(s) && Runs(s, j)
    ensures var after := AfterRun(s, j, now, Gone(s, j, now, workspaces, ending), ending);
      Consistent(after) && FrozenJob(s.jobs[j], after)
  {
    assert s.jobs[j] in s.jobs;
    var gone, ids := Gone(s, j, now, workspaces, ending), EligibleIds(s, j, now);
    GoneIsEligible(s, j, now, workspaces, ending);
    DeletedAtMost(s.rows, gone);
    SubsetSize(gone, ids);
    SubsetSize(ids, s.jobs[j].candidateIds);
  }

  /** A row whose id is eligible is covered by the job as it was before. */
  lemma EligibleIsCovered(s: State, j: nat, now: int, r: Row)
    requires Sound(s) && Runs(s, j) && r in s.rows && r.id in EligibleIds(s, j, now)
    ensures Covered(s.jobs, Deletion(j, r, s.holds, now)) && r.dataClass == s.jobs[j].dataClass
  {
    var q :| q in s.rows && Deletable(q, s.holds, s.jobs[j].dataClass, s.jobs[j].cutoff, now) && q.id == r.id;
    DistinctIdUnique(s.rows, q, r);
  }

  /** The issue a row hangs on that an execution takes along, covered like every issue deleted. */
  lemma SweptBy(s: State, j: nat, now: int, gone: set<Id>, r: Row) returns (i: Row)
    requires Sound(s) && Runs(s, j) && s.jobs[j].dataClass.Issues? && gone <= EligibleIds(s, j, now)
    requires r in s.rows && Hangs(r, gone)
    ensures i in s.rows && i.id in gone && i.dataClass.Issues? && Hangs(r, {i.id})
    ensures Covered(s.jobs, Deletion(j, i, s.holds, now))
  {
    assert r.issue.value in EligibleIds(s, j, now);
    i :| i in s.rows && Deletable(i, s.holds, Issues, s.jobs[j].cutoff, now) && i.id == r.issue.value;
    EligibleIsCovered(s, j, now, i);
  }

  /** Everything an execution deletes is covered by the job as it was before, or hangs on an issue that is. */
  lemma RunLogAccounted(s: State, j: nat, now: int, gone: set<Id>)
    requires Sound(s) && Runs(s, j) && gone <= EligibleIds(s, j, now)
    ensures Accounted(s.jobs, LogOf(s.rows, Lost(s.rows, s.jobs[j].dataClass, gone), j, s.holds, now))
  {
    var lost := Lost(s.rows, s.jobs[j].dataClass, gone);
    var log := LogOf(s.rows, lost, j, s.holds, now);
    LoggedRows(s.rows, lost, j, s.holds, now);
    forall d <- log ensures Covered(s.jobs, d) || Swept(s.jobs, log, d) {
      if d.row.id in gone {
        EligibleIsCovered(s, j, now, d.row);
      } else {
        var r :| r in s.rows && Hangs(r, gone) && r.id == d.row.id;
        DistinctIdUnique(s.rows, r, d.row);
        var i := SweptBy(s, j, now, gone, r);
        assert Deletion(j, i, s.holds, now) in log;
      }
    }
  }

  lemma ExecuteKeepsSound(s: State, step: Step)
    requires Sound(s) && step.Execute? && Runs(s, step.job)
    ensures Sound(Next(s, step)) && Frozen(s, Next(s, step))
  {
    var j, now := step.job, step.now;
    var gone := Gone(s, j, now, step.workspaces, step.ending);
    var lost := Lost(s.rows, s.jobs[j].dataClass, gone);
    var t := Next(s, step);
    RunJobConsistent(s, j, now, step.workspaces, step.ending);
    GoneIsEligible(s, j, now, step.workspaces, step.ending);
    WithoutDistinct(s.rows, lost);
    WithoutShrinks(s.rows, lost);
    assert Filed(t.rows);
    RunLogAccounted(s, j, now, gone);
    AccountedTogether(s.jobs, s.log, LogOf(s.rows, lost, j, s.holds, now));
    assert Frozen(s, t);
    AccountedStays(s, t, t.log);
  }

  lemma ReleaseKeepsSound(s: State, h: nat, now: int)
    requires Sound(s)
    ensures Sound(Next(s, Release(h, now)))
  {
    var t := Next(s, Release(h, now));
    forall x <- t.holds ensures Scoped(x) {
      var k :| 0 <= k < |t.holds| && t.holds[k] == x;
      assert s.holds[k] in s.holds;
    }
  }

  /** Writers outside the deletion keep ids apart and rows filed under their issues. */
  ghost predicate Orderly(step: Step) {
    step.Environment? ==> DistinctIds(step.rows) && Filed(step.rows)
  }

  lemma StepKeepsSound(s: State, step: Step)
    requires Sound(s) && Orderly(step)
    ensures Sound(Next(s, step)) && Frozen(s, Next(s, step))
  {
    var t := Next(s, step);
    match step
    case Execute(j, _, _, _) =>
      if Runs(s, j) { ExecuteKeepsSound(s, step); }
    case Approve(j, _, _) =>
      if t != s { assert s.jobs[j] in s.jobs && Consistent(s.jobs[j]); }
      assert Frozen(s, t);
      AccountedStays(s, t, s.log);
    case Preview(_, _, _, _) =>
      assert Frozen(s, t);
      AccountedStays(s, t, s.log);
    case Release(h, now) => ReleaseKeepsSound(s, h, now);
    case _ =>
  }

  /** Over every run, failures, crashes and retries included: each deletion is covered by its approved
      preview or hangs on an issue whose deletion is, and no job counts more deletions than were eligible
      or previewed. */
  lemma {:induction false} RunKeepsSound(s: State, steps: seq<Step>)
    requires Sound(s)
    requires forall step <- steps :: Orderly(step)
    ensures Sound(Run(s, steps)) && Frozen(s, Run(s, steps))
    decreases |steps|
  {
    if steps != [] {
      assert steps[0] in steps && forall step <- steps[1..] :: step in steps;
      var t := Next(s, steps[0]);
      StepKeepsSound(s, steps[0]);
      RunKeepsSound(t, steps[1..]);
      var u := Run(t, steps[1..]);
      forall j | 0 <= j < |s.jobs| ensures FrozenJob(s.jobs[j], u.jobs[j]) {
        assert FrozenJob(s.jobs[j], t.jobs[j]) && FrozenJob(t.jobs[j], u.jobs[j]);
      }
    }
  }

  /** The log of `t` extends that of `s` by deletions of other jobs than `j`. */
  ghost predicate OnlyOthers(s: State, t: State, j: nat) {
    s.log <= t.log && forall k :: |s.log| <= k < |t.log| ==> t.log[k].job != j
  }

  lemma CompletedStep(s: State, j: nat, step: Step)
    requires j < |s.jobs| && s.jobs[j].status == Completed
    ensures j < |Next(s, step).jobs| && Next(s, step).jobs[j] == s.jobs[j] && OnlyOthers(s, Next(s, step), j)
  {
    if step.Execute? && Runs(s, step.job) {
      var lost := Lost(
        s.rows, s.jobs[step.job].dataClass, Gone(s, step.job, step.now, step.workspaces, step.ending));
      var added := LogOf(s.rows, lost, step.job, s.holds, step.now);
      LoggedRows(s.rows, lost, step.job, s.holds, step.now);
      assert forall k :: 0 <= k < |added| ==> added[k] in added;
    }
  }

  /** From its completion on, a job deletes nothing more. */
  lemma {:induction false} CompletedIsFinal(s: State, j: nat, steps: seq<Step>)
    requires j < |s.jobs| && s.jobs[j].status == Completed
    ensures j < |Run(s, steps).jobs| && Run(s, steps).jobs[j] == s.jobs[j] && OnlyOthers(s, Run(s, steps), j)
    decreases |steps|
  {
    if steps != [] {
      var t := Next(s, steps[0]);
      CompletedStep(s, j, steps[0]);
      CompletedIsFinal(t, j, steps[1..]);
      assert forall k :: |s.log| <= k < |t.log| ==> Run(t, steps[1..]).log[k] == t.log[k];
    }
  }

  // ---- What previews and holds do not protect

  /** The record was under an active hold when it was deleted. */
  predicate HeldWhenDeleted(d: Deletion) {
    Held(CandidateOf(d.row), d.holds, d.now)
  }

  predicate UserHeld(r: Row, holds: seq<Hold>, now: int) {
    exists h <- holds :: Active(h, now) && h.scope.UserScope? && h.scopeId == CandidateOf(r).user
  }

  /** On an issue that no hold covers, only a hold on its own user can cover a comment or a notification,
      and none an attachment. */
  lemma HangingHeldIff(holds: seq<Hold>, now: int, i: Row, r: Row)
    requires forall h <- holds :: Scoped(h)
    requires i.dataClass.Issues? && Hangs(r, {i.id}) && r.workspace == i.workspace && r.project == i.project
    requires !Held(CandidateOf(i), holds, now)
    ensures Held(CandidateOf(r), holds, now) <==> UserHeld(r, holds, now)
    ensures r.dataClass.Attachments? ==> !UserHeld(r, holds, now)
  {
    if h :| h in holds && Active(h, now) && Matches(CandidateOf(r), h) {
      assert !Matches(CandidateOf(i), h);
    }
    if h :| h in holds && Active(h, now) && h.scope.UserScope? && h.scopeId == CandidateOf(r).user {
      assert Matches(CandidateOf(r), h);
    }
  }

  /** The rows a step deletes along with their issues. */
  ghost predicate Sweeps(s: State, step: Step, r: Row) {
    && step.Execute? && Runs(s, step.job) && s.jobs[step.job].dataClass.Issues? && r in s.rows
    && Hangs(r, Gone(s, step.job, step.now, step.workspaces, step.ending))
  }

  /** A step deletes nothing but what its preview listed and the cutoff and the holds allow, exactly when
      nothing hangs on the issues it deletes. */
  lemma OnlyCoveredIff(s: State, step: Step)
    requires Sound(s)
    ensures s.log <= Next(s, step).log
    ensures (forall k :: |s.log| <= k < |Next(s, step).log| ==> Covered(s.jobs, Next(s, step).log[k]))
      <==> forall r <- s.rows :: !Sweeps(s, step, r)
  {
    if step.Execute? && Runs(s, step.job) {
      var j, now, n := step.job, step.now, |s.log|;
      var gone := Gone(s, j, now, step.workspaces, step.ending);
      var lost, log := Lost(s.rows, s.jobs[j].dataClass, gone), Next(s, step).log;
      GoneIsEligible(s, j, now, step.workspaces, step.ending);
      LoggedRows(s.rows, lost, j, s.holds, now);
      forall r <- s.rows | Sweeps(s, step, r)
        ensures exists k :: n <= k < |log| && !Covered(s.jobs, log[k])
      {
        var at := Logged(s, step, r);
      }
      if forall r <- s.rows :: !Sweeps(s, step, r) {
        forall k | n <= k < |log| ensures Covered(s.jobs, log[k]) {
          assert log[k] in LogOf(s.rows, lost, j, s.holds, now);
          EligibleIsCovered(s, j, now, log[k].row);
        }
      }
    }
  }

  lemma Logged(s: State, step: Step, r: Row) returns (at: nat)
    requires Sweeps(s, step, r)
    ensures |s.log| <= at < |Next(s, step).log|
    ensures Next(s, step).log[at] == Deletion(step.job, r, s.holds, step.now)
  {
    var lost := Lost(s.rows, Issues, Gone(s, step.job, step.now, step.workspaces, step.ending));
    var added := LogOf(s.rows, lost, step.job, s.holds, step.now);
    LoggedRows(s.rows, lost, step.job, s.holds, step.now);
    assert Deletion(step.job, r, s.holds, step.now) in added;
    var k :| 0 <= k < |added| && added[k] == Deletion(step.job, r, s.holds, step.now);
    at := |s.log| + k;
  }

  /** Whoever a row swept along belongs to is under no active hold. */
  ghost predicate Spares(s: State, step: Step) {
    forall r <- s.rows :: Sweeps(s, step, r) ==> !UserHeld(r, s.holds, step.now)
  }

  lemma SweptIsHeldIff(s: State, step: Step, r: Row)
    requires Sound(s) && Sweeps(s, step, r)
    ensures Held(CandidateOf(r), s.holds, step.now) <==> UserHeld(r, s.holds, step.now)
  {
    var gone := Gone(s, step.job, step.now, step.workspaces, step.ending);
    GoneIsEligible(s, step.job, step.now, step.workspaces, step.ending);
    var i := SweptBy(s, step.job, step.now, gone, r);
    HangingHeldIff(s.holds, step.now, i, r);
  }

  lemma HeldIsNotSpared(s: State, step: Step, k: nat)
    requires Sound(s) && |s.log| <= k < |Next(s, step).log|
    ensures HeldWhenDeleted(Next(s, step).log[k]) ==> !Spares(s, step)
  {
    var j, now, d := step.job, step.now, Next(s, step).log[k];
    var gone := Gone(s, j, now, step.workspaces, step.ending);
    var lost := Lost(s.rows, s.jobs[j].dataClass, gone);
    LoggedRows(s.rows, lost, j, s.holds, now);
    assert d in LogOf(s.rows, lost, j, s.holds, now);
    GoneIsEligible(s, j, now, step.workspaces, step.ending);
    if d.row.id in gone {
      EligibleIsCovered(s, j, now, d.row);
    } else {
      var r :| r in s.rows && Hangs(r, gone) && r.id == d.row.id;
      DistinctIdUnique(s.rows, r, d.row);
      SweptIsHeldIff(s, step, r);
    }
  }

  ghost predicate SparesThroughout(s: State, steps: seq<Step>)
    decreases |steps|
  {
    steps == [] || (Spares(s, steps[0]) && SparesThroughout(Next(s, steps[0]), steps[1..]))
  }

  lemma {:induction false} LogGrows(s: State, steps: seq<Step>)
    ensures s.log <= Run(s, steps).log
    decreases |steps|
  {
    if steps != [] { LogGrows(Next(s, steps[0]), steps[1..]); }
  }

  /** Over any run no record is deleted while an active hold covers it, if and only if no execution deletes
      an issue with a comment or a notification whose user is under an active hold. */
  lemma {:induction false} HoldsRespectedIff(s: State, steps: seq<Step>)
    requires Sound(s) && forall step <- steps :: Orderly(step)
    ensures s.log <= Run(s, steps).log
    ensures (forall k :: |s.log| <= k < |Run(s, steps).log| ==> !HeldWhenDeleted(Run(s, steps).log[k]))
      <==> SparesThroughout(s, steps)
    decreases |steps|
  {
    LogGrows(s, steps);
    if steps != [] {
      assert steps[0] in steps && forall step <- steps[1..] :: step in steps;
      var t, u := Next(s, steps[0]), Run(s, steps);
      StepKeepsSound(s, steps[0]);
      HoldsRespectedIff(t, steps[1..]);
      assert forall k :: 0 <= k < |t.log| ==> u.log[k] == t.log[k];
      if Spares(s, steps[0]) {
        forall k | |s.log| <= k < |t.log| ensures !HeldWhenDeleted(u.log[k]) { HeldIsNotSpared(s, steps[0], k); }
      } else {
        var r :| r in s.rows && Sweeps(s, steps[0], r) && UserHeld(r, s.holds, steps[0].now);
        SweptIsHeldIff(s, steps[0], r);
        var at := Logged(s, steps[0], r);
        assert HeldWhenDeleted(u.log[at]);
      }
    }
  }

  lemma {:induction false} OfClassMember(rows: seq<Row>, dataClass: DataClass, r: Row)
    ensures r in OfClass(rows, dataClass) <==> r in rows && r.dataClass == dataClass
    decreases |rows|
  {
    if rows != [] { OfClassMember(rows[1..], dataClass, r); }
  }

  lemma EligibleIssueGoes(s: State, j: nat, now: int, i: Row)
    requires j < |s.jobs| && s.jobs[j].dataClass.Issues? && i in s.rows && i.dataClass.Issues?
    requires i.id in EligibleIds(s, j, now)
    ensures i.id in Gone(s, j, now, [], Completes)
  {
    var own, ids := OfClass(s.rows, Issues), EligibleIds(s, j, now);
    OfClassMember(s.rows, Issues, i);
    var batches := Batches(s.rows, Issues, ids, []);
    assert batches[..0] == [] && Union(batches) == Union(batches[..0]) + batches[0];
  }

  /** An archived issue of user 8 with a comment of user 7, whose author is under a hold, and an approved
      job for the issue. */
  const HELD_COMMENT := Row(2, Comments, None, 5, Some(6), Some(1), Some(7), true, false)
  const OWN_ISSUE := Row(1, Issues, Some(0), 5, Some(6), None, Some(8), true, false)
  const BEFORE := State(
    [OWN_ISSUE, HELD_COMMENT], [Hold(UserScope, Some(7), 0, None, None)],
    [Job(Issues, 50, {1}, 1, "", Approved, Some(60), 0, None)], [])

  /** The comment was never previewed and not even deleted by its author, but it goes with the issue. */
  lemma HeldCommentIsDestroyed()
    ensures Sound(BEFORE) && HELD_COMMENT in BEFORE.rows && HELD_COMMENT.id !in BEFORE.jobs[0].candidateIds
    ensures Held(CandidateOf(HELD_COMMENT), BEFORE.holds, 100)
    ensures HELD_COMMENT !in Next(BEFORE, Execute(0, 100, [], Completes)).rows
  {
    var s, step := BEFORE, Execute(0, 100, [], Completes);
    assert s.holds[0] in s.holds && s.rows[0] in s.rows && s.rows[1] in s.rows;
    assert Deletable(OWN_ISSUE, s.holds, Issues, 50, 100);
    assert 1 in EligibleIds(s, 0, 100);
    EligibleIssueGoes(s, 0, 100, OWN_ISSUE);
    assert Sweeps(s, step, HELD_COMMENT);
    WithoutShrinks(s.rows, Lost(s.rows, Issues, Gone(s, 0, 100, [], Completes)));
  }

  // ---- Previews and executions, said about the columns of the stored rows

  /** The project a row is filed under; audit events have none. */
  function ProjectOf(r: Row): Option<Id> {
    if r.dataClass.AuditEvents? then None else r.project
  }

  /** The issue a row is or belongs to, where its class has one. */
  function IssueOf(r: Row): Option<Id> {
    match r.dataClass
    case Issues => Some(r.id)
    case Comments => r.issue
    case Attachments => r.issue
    case Notifications => r.issue
    case RealtimeEvents => if r.issueEvent then r.issue else None
    case _ => None
  }

  /** The reporter, author, recipient or actor, where the class has one. */
  function UserOf(r: Row): Option<Id> {
    match r.dataClass
    case Issues => r.user
    case Comments => r.user
    case Notifications => r.user
    case AuditEvents => r.user
    case _ => None
  }

  ghost predicate Covers(h: Hold, r: Row) {
    || h.scope == OrganizationScope
    || (h.scope == WorkspaceScope && h.scopeId == Some(r.workspace))
    || (h.scope == ProjectScope && h.scopeId.Some? && h.scopeId == ProjectOf(r))
    || (h.scope == IssueScope && h.scopeId.Some? && h.scopeId == IssueOf(r))
    || (h.scope == UserScope && h.scopeId.Some? && h.scopeId == UserOf(r))
  }

  ghost predicate InForce(h: Hold, now: int) {
    h.startsAt <= now && h.releasedAt == None && (h.endsAt == None || now < h.endsAt.value)
  }

  ghost predicate Protected(r: Row, holds: seq<Hold>, now: int) {
    exists h <- holds :: InForce(h, now) && Covers(h, r)
  }

  /** Before the cutoff; an attachment goes only with an archived issue. */
  ghost predicate Ripe(r: Row, dataClass: DataClass, cutoff: int) {
    && r.dataClass == dataClass && r.stamp.Some? && r.stamp.value < cutoff
    && (dataClass == Attachments ==> r.issueArchived)
  }

  lemma DeletableMeans(r: Row, holds: seq<Hold>, dataClass: DataClass, cutoff: int, now: int)
    requires forall h <- holds :: Scoped(h)
    ensures Deletable(r, holds, dataClass, cutoff, now) <==> Ripe(r, dataClass, cutoff) && !Protected(r, holds, now)
  {
    forall h <- holds ensures Active(h, now) && Matches(CandidateOf(r), h) <==> InForce(h, now) && Covers(h, r) {}
  }

  /** A preview lists exactly the rows of its class that are past the cutoff and that no hold in force covers. */
  lemma PreviewMeans(s: State, dataClass: DataClass, cutoff: int, now: int, hash: string)
    requires Sound(s)
    ensures var t := Next(s, Preview(dataClass, cutoff, now, hash));
      && |t.jobs| == |s.jobs| + 1 && t.jobs[..|s.jobs|] == s.jobs
      && t.rows == s.rows && t.holds == s.holds && t.log == s.log
      && var job := t.jobs[|s.jobs|];
      && job.status == Previewed && job.previewHash == hash && job.dataClass == dataClass && job.cutoff == cutoff
      && forall r <- s.rows ::
           r.id in job.candidateIds <==> Ripe(r, dataClass, cutoff) && !Protected(r, s.holds, now)
  {
    forall r <- s.rows
      ensures r.id in Discover(s.rows, s.holds, dataClass, cutoff, now)
        <==> Ripe(r, dataClass, cutoff) && !Protected(r, s.holds, now)
    {
      DiscoveredIff(s, r, dataClass, cutoff, now);
    }
  }

  lemma DiscoveredIff(s: State, r: Row, dataClass: DataClass, cutoff: int, now: int)
    requires Sound(s) && r in s.rows
    ensures r.id in Discover(s.rows, s.holds, dataClass, cutoff, now)
      <==> Ripe(r, dataClass, cutoff) && !Protected(r, s.holds, now)
  {
    DeletableMeans(r, s.holds, dataClass, cutoff, now);
    if r.id in Discover(s.rows, s.holds, dataClass, cutoff, now) {
      var q :| q in s.rows && Deletable(q, s.holds, dataClass, cutoff, now) && q.id == r.id;
      DistinctIdUnique(s.rows, q, r);
    }
  }

  /** The row is on the list of the job, past its cutoff and covered by no hold in force. */
  ghost predicate Due(s: State, j: nat, now: int, r: Row)
    requires j < |s.jobs|
  {
    var job := s.jobs[j];
    r in s.rows && r.id in job.candidateIds && Ripe(r, job.dataClass, job.cutoff) && !Protected(r, s.holds, now)
  }

  lemma EligibleIsDue(s: State, j: nat, now: int, r: Row)
    requires Sound(s) && j < |s.jobs| && r in s.rows
    ensures r.id in EligibleIds(s, j, now) <==> Due(s, j, now, r)
  {
    DiscoveredIff(s, r, s.jobs[j].dataClass, s.jobs[j].cutoff, now);
  }

  /** A comment, attachment or notification of the issue. */
  ghost predicate BelongsTo(r: Row, i: Row) {
    i.dataClass == Issues && r.dataClass in {Comments, Attachments, Notifications} && r.issue == Some(i.id)
  }

  /** An approved job that has not completed runs, whatever happened to it before. */
  lemma RunsIff(s: State, j: nat)
    requires Sound(s)
    ensures Runs(s, j) <==> j < |s.jobs| && s.jobs[j].status != Previewed && s.jobs[j].status != Completed
  {
    if j < |s.jobs| { assert Consistent(s.jobs[j]); }
  }

  lemma {:induction false} PrefixIff(rows: seq<Row>, workspace: Id, ids: set<Id>, k: nat)
    requires k < |rows| && DistinctIds(rows)
    requires rows[k].dataClass == AuditEvents && rows[k].workspace == workspace
    ensures rows[k].id in PrefixIds(OfWorkspace(OfClass(rows, AuditEvents), workspace), ids)
      <==> ListedSoFar(rows, workspace, ids, k)
    decreases |rows|
  {
    var rest := rows[1..];
    var events, tail := OfWorkspace(OfClass(rows, AuditEvents), workspace),
                        OfWorkspace(OfClass(rest, AuditEvents), workspace);
    EventsOf(rows, workspace);
    if k > 0 {
      PrefixIff(rest, workspace, ids, k - 1);
      ListedAfter(rows, workspace, ids, k);
      if rows[0].dataClass == AuditEvents && rows[0].workspace == workspace {
        assert events[0] == rows[0] && events[1..] == tail && rows[k].id != rows[0].id;
      } else {
        assert events == tail;
      }
    } else {
      assert events[0] == rows[0];
    }
  }

  ghost predicate ListedSoFar(rows: seq<Row>, workspace: Id, ids: set<Id>, k: nat)
    requires k < |rows|
  {
    forall i :: 0 <= i <= k && rows[i].dataClass == AuditEvents && rows[i].workspace == workspace ==>
      rows[i].id in ids
  }

  lemma ListedAfter(rows: seq<Row>, workspace: Id, ids: set<Id>, k: nat)
    requires 0 < k < |rows|
    ensures ListedSoFar(rows, workspace, ids, k) <==>
      (rows[0].dataClass == AuditEvents && rows[0].workspace == workspace ==> rows[0].id in ids)
      && ListedSoFar(rows[1..], workspace, ids, k - 1)
  {
    var rest := rows[1..];
    assert forall i :: 0 < i <= k ==> rows[i] == rest[i - 1];
    assert forall i :: 0 <= i <= k - 1 ==> rest[i] == rows[i + 1];
  }

  lemma EventsOf(rows: seq<Row>, workspace: Id)
    requires rows != []
    ensures OfWorkspace(OfClass(rows, AuditEvents), workspace)
      == (if rows[0].dataClass == AuditEvents && rows[0].workspace == workspace then [rows[0]] else [])
         + OfWorkspace(OfClass(rows[1..], AuditEvents), workspace)
  {
    var all, rest := OfClass(rows, AuditEvents), OfClass(rows[1..], AuditEvents);
    var tail := OfWorkspace(rest, workspace);
    assert [] + rest == rest && [] + tail == tail;
    if rows[0].dataClass == AuditEvents { assert all[0] == rows[0] && all[1..] == rest; }
  }

  lemma {:induction false} InUnion(batches: seq<set<Id>>, id: Id)
    ensures id in Union(batches) <==> exists b <- batches :: id in b
    decreases |batches|
  {
    if batches != [] {
      var n := |batches| - 1;
      InUnion(batches[..n], id);
      assert batches[n] in batches && forall b :: b in batches <==> b in batches[..n] || b == batches[n];
    }
  }

  lemma {:induction false} InSingles(rows: seq<Row>, ids: set<Id>, id: Id)
    ensures (exists b <- Singles(rows, ids) :: id in b) <==> id in ids && id in Ids(rows)
    decreases |rows|
  {
    if rows != [] {
      var first := if rows[0].id in ids then [{rows[0].id}] else [];
      InSingles(rows[1..], ids, id);
      assert Singles(rows, ids) == first + Singles(rows[1..], ids);
      assert forall b :: b in Singles(rows, ids) <==> b in first || b in Singles(rows[1..], ids);
      assert rows[0] in rows && forall r :: r in rows <==> r == rows[0] || r in rows[1..];
      if rows[0].id in ids { assert {rows[0].id} in first; }
    }
  }

  ghost predicate InPrefix(rows: seq<Row>, workspace: Id, ids: set<Id>, id: Id) {
    id in PrefixIds(OfWorkspace(rows, workspace), ids)
  }

  lemma {:induction false} InPrefixes(rows: seq<Row>, ids: set<Id>, workspaces: seq<Id>, id: Id)
    ensures (exists b <- Prefixes(rows, ids, workspaces) :: id in b)
      <==> exists w <- workspaces :: InPrefix(rows, w, ids, id)
    decreases |workspaces|
  {
    if workspaces != [] {
      var head, tail := workspaces[0], workspaces[1..];
      var first, rest := PrefixIds(OfWorkspace(rows, head), ids), Prefixes(rows, ids, tail);
      InPrefixes(rows, ids, tail, id);
      assert Prefixes(rows, ids, workspaces) == [first] + rest;
      assert first in [first] + rest && forall b :: b in [first] + rest <==> b == first || b in rest;
      assert InPrefix(rows, head, ids, id) <==> id in first;
      assert workspaces == [head] + tail && forall w :: w in workspaces <==> w == head || w in tail;
    }
  }

  lemma {:induction false} PrefixWithinEvents(events: seq<Row>, ids: set<Id>)
    ensures PrefixIds(events, ids) <= Ids(events)
    decreases |events|
  {
    if events != [] {
      PrefixWithinEvents(events[1..], ids);
      assert events[0] in events && forall r <- events[1..] :: r in events;
    }
  }

  lemma {:induction false} OfWorkspaceMember(rows: seq<Row>, workspace: Id, r: Row)
    ensures r in OfWorkspace(rows, workspace) <==> r in rows && r.workspace == workspace
    decreases |rows|
  {
    if rows != [] { OfWorkspaceMember(rows[1..], workspace, r); }
  }

  /** The events of the workspaces listed that stand before the first one not due. */
  ghost predicate InDuePrefix(s: State, j: nat, now: int, workspaces: seq<Id>, k: nat)
    requires j < |s.jobs| && k < |s.rows|
  {
    && s.rows[k].dataClass == AuditEvents && s.rows[k].workspace in workspaces
    && forall i :: 0 <= i <= k && s.rows[i].dataClass == AuditEvents && s.rows[i].workspace == s.rows[k].workspace ==>
         Due(s, j, now, s.rows[i])
  }

  lemma PrefixGone(s: State, j: nat, now: int, workspaces: seq<Id>, k: nat)
    requires Sound(s) && j < |s.jobs| && k < |s.rows| && s.jobs[j].dataClass == AuditEvents
    ensures (exists w <- workspaces ::
               InPrefix(OfClass(s.rows, AuditEvents), w, EligibleIds(s, j, now), s.rows[k].id))
      <==> InDuePrefix(s, j, now, workspaces, k)
  {
    var ids, own, r := EligibleIds(s, j, now), OfClass(s.rows, AuditEvents), s.rows[k];
    forall w <- workspaces | InPrefix(own, w, ids, r.id)
      ensures w == r.workspace && r.dataClass == AuditEvents
    {
      PrefixWithinEvents(OfWorkspace(own, w), ids);
      var q :| q in OfWorkspace(own, w) && q.id == r.id;
      OfWorkspaceMember(own, w, q);
      OfClassMember(s.rows, AuditEvents, q);
      DistinctIdUnique(s.rows, q, r);
    }
    if r.dataClass == AuditEvents {
      PrefixIff(s.rows, r.workspace, ids, k);
      forall i | 0 <= i <= k ensures s.rows[i].id in ids <==> Due(s, j, now, s.rows[i]) {
        EligibleIsDue(s, j, now, s.rows[i]);
      }
    }
  }

  /** What an execution that completes deletes by its own id. */
  ghost predicate Dues(s: State, j: nat, now: int, workspaces: seq<Id>, k: nat)
    requires j < |s.jobs| && k < |s.rows|
  {
    if s.jobs[j].dataClass == AuditEvents then InDuePrefix(s, j, now, workspaces, k) else Due(s, j, now, s.rows[k])
  }

  lemma GoneIff(s: State, j: nat, now: int, workspaces: seq<Id>, k: nat)
    requires Sound(s) && j < |s.jobs| && k < |s.rows|
    ensures s.rows[k].id in Gone(s, j, now, workspaces, Completes) <==> Dues(s, j, now, workspaces, k)
  {
    var ids, r, dataClass := EligibleIds(s, j, now), s.rows[k], s.jobs[j].dataClass;
    var own := OfClass(s.rows, dataClass);
    var batches := Batches(s.rows, dataClass, ids, workspaces);
    InUnion(batches, r.id);
    EligibleIsDue(s, j, now, r);
    if r.id in ids {
      OfClassMember(s.rows, dataClass, r);
      assert r.id in Ids(own);
    }
    match dataClass
    case Attachments => InSingles(own, ids, r.id);
    case AuditEvents =>
      InPrefixes(own, ids, workspaces, r.id);
      PrefixGone(s, j, now, workspaces, k);
    case _ => assert batches == [Ids(own) * ids] && batches[0] in batches;
  }

  /** An execution that completes deletes exactly what is due, of audit events the part of each log before the
      first that is not, and of an issue's comments, attachments and notifications all. */
  lemma CompletionMeans(s: State, j: nat, now: int, workspaces: seq<Id>)
    requires Sound(s) && Runs(s, j)
    ensures var t := Next(s, Execute(j, now, workspaces, Completes));
      && (forall r <- t.rows :: r in s.rows)
      && forall k :: 0 <= k < |s.rows| ==> (s.rows[k] !in t.rows <==>
           || Dues(s, j, now, workspaces, k)
           || exists i :: 0 <= i < |s.rows| && Dues(s, j, now, workspaces, i) && BelongsTo(s.rows[k], s.rows[i]))
  {
    var gone := Gone(s, j, now, workspaces, Completes);
    var t, lost := Next(s, Execute(j, now, workspaces, Completes)), Lost(s.rows, s.jobs[j].dataClass, gone);
    WithoutShrinks(s.rows, lost);
    forall k | 0 <= k < |s.rows|
      ensures s.rows[k] !in t.rows <==>
        || Dues(s, j, now, workspaces, k)
        || exists i :: 0 <= i < |s.rows| && Dues(s, j, now, workspaces, i) && BelongsTo(s.rows[k], s.rows[i])
    {
      GoneIff(s, j, now, workspaces, k);
      GoneIsEligible(s, j, now, workspaces, Completes);
      SweptIff(s, j, now, workspaces, k);
    }
  }

  lemma SweptIff(s: State, j: nat, now: int, workspaces: seq<Id>, k: nat)
    requires Sound(s) && Runs(s, j) && k < |s.rows|
    ensures var gone := Gone(s, j, now, workspaces, Completes);
      s.jobs[j].dataClass == Issues && s.rows[k].id in Cascade(s.rows, gone)
      <==> exists i :: 0 <= i < |s.rows| && Dues(s, j, now, workspaces, i) && BelongsTo(s.rows[k], s.rows[i])
  {
    var gone, r := Gone(s, j, now, workspaces, Completes), s.rows[k];
    GoneIsEligible(s, j, now, workspaces, Completes);
    if s.jobs[j].dataClass == Issues && r.id in Cascade(s.rows, gone) {
      var q :| q in s.rows && Hangs(q, gone) && q.id == r.id;
      DistinctIdUnique(s.rows, q, r);
      var i := SweptBy(s, j, now, gone, r);
      var n :| 0 <= n < |s.rows| && s.rows[n] == i;
      GoneIff(s, j, now, workspaces, n);
      assert BelongsTo(r, s.rows[n]);
    }
    if i :| 0 <= i < |s.rows| && Dues(s, j, now, workspaces, i) && BelongsTo(r, s.rows[i]) {
      GoneIff(s, j, now, workspaces, i);
      assert Hangs(r, gone);
    }
  }

  /** However it ends, an execution removes nothing else. */
  lemma RemovedWasDue(s: State, j: nat, now: int, workspaces: seq<Id>, ending: Ending, r: Row)
    requires Sound(s) && Runs(s, j) && r in s.rows && r !in Next(s, Execute(j, now, workspaces, ending)).rows
    ensures Due(s, j, now, r) || exists i <- s.rows :: Due(s, j, now, i) && BelongsTo(r, i)
  {
    var gone := Gone(s, j, now, workspaces, ending);
    WithoutShrinks(s.rows, Lost(s.rows, s.jobs[j].dataClass, gone));
    GoneIsEligible(s, j, now, workspaces, ending);
    if r.id in gone {
      EligibleIsDue(s, j, now, r);
    } else {
      var i := SweptWith(s, j, now, gone, r);
    }
  }

  lemma SweptWith(s: State, j: nat, now: int, gone: set<Id>, r: Row) returns (i: Row)
    requires Sound(s) && Runs(s, j) && gone <= EligibleIds(s, j, now) && s.jobs[j].dataClass == Issues
    requires r in s.rows && r.id in Cascade(s.rows, gone)
    ensures i in s.rows && Due(s, j, now, i) && BelongsTo(r, i)
  {
    var q :| q in s.rows && Hangs(q, gone) && q.id == r.id;
    DistinctIdUnique(s.rows, q, r);
    i := SweptBy(s, j, now, gone, r);
    EligibleIsDue(s, j, now, i);
  }

  /** What an execution writes into its job: one attempt more, and how it ended, with the number of rows
      that were due and of those it deleted by their own id. */
  lemma ExecutionRecords(s: State, j: nat, now: int, workspaces: seq<Id>, ending: Ending)
    requires Sound(s) && Runs(s, j)
    ensures var t := Next(s, Execute(j, now, workspaces, ending));
      && |t.jobs| == |s.jobs| && t.holds == s.holds
      && (forall k :: 0 <= k < |s.jobs| && k != j ==> t.jobs[k] == s.jobs[k])
      && t.jobs[j].attempts == s.jobs[j].attempts + 1
      && match ending
         case Throws(_) => t.jobs[j].status == Failed
         case Dies(_) => t.jobs[j].status == Running
         case Completes =>
           && t.jobs[j].status == Completed && t.jobs[j].evidence.Some?
           && t.jobs[j].evidence.value.completedAt == now
           && t.jobs[j].evidence.value.eligibleAtExecution == |set r <- s.rows | Due(s, j, now, r) :: r.id|
           && (s.jobs[j].dataClass != AuditEvents ==>
                 t.jobs[j].evidence.value.deletedCount == t.jobs[j].evidence.value.eligibleAtExecution)
  {
    if ending.Completes? { CompletionRecords(s, j, now, workspaces); }
  }

  lemma CompletionRecords(s: State, j: nat, now: int, workspaces: seq<Id>)
    requires Sound(s) && Runs(s, j)
    ensures var job := Next(s, Execute(j, now, workspaces, Completes)).jobs[j];
      && job.evidence.Some? && job.evidence.value.eligibleAtExecution == |set r <- s.rows | Due(s, j, now, r) :: r.id|
      && (s.jobs[j].dataClass != AuditEvents ==>
            job.evidence.value.deletedCount == job.evidence.value.eligibleAtExecution)
  {
    var gone := Gone(s, j, now, workspaces, Completes);
    EligibleIsDueSet(s, j, now);
    if s.jobs[j].dataClass != AuditEvents { AllDueGo(s, j, now, workspaces); }
    EvidenceCounts(s, j, now, gone);
  }

  lemma EvidenceCounts(s: State, j: nat, now: int, gone: set<Id>)
    requires j < |s.jobs| && DistinctIds(s.rows)
    ensures var e := AfterRun(s, j, now, gone, Completes).evidence;
      && e.Some? && e.value.eligibleAtExecution == |EligibleIds(s, j, now)|
      && (gone <= Ids(s.rows) ==> e.value.deletedCount == |gone|)
  {
    if gone <= Ids(s.rows) { DeletedExactly(s.rows, gone); }
  }

  lemma EligibleIsDueSet(s: State, j: nat, now: int)
    requires Sound(s) && j < |s.jobs|
    ensures EligibleIds(s, j, now) == set r <- s.rows | Due(s, j, now, r) :: r.id
    ensures EligibleIds(s, j, now) <= Ids(s.rows)
  {
    var ids := set r <- s.rows | Due(s, j, now, r) :: r.id;
    forall id ensures id in ids <==> id in EligibleIds(s, j, now) {
      if id in EligibleIds(s, j, now) {
        var q :| q in s.rows && Deletable(q, s.holds, s.jobs[j].dataClass, s.jobs[j].cutoff, now) && q.id == id;
        EligibleIsDue(s, j, now, q);
      }
      if id in ids {
        var q :| q in s.rows && Due(s, j, now, q) && q.id == id;
        EligibleIsDue(s, j, now, q);
      }
    }
  }

  lemma AllDueGo(s: State, j: nat, now: int, workspaces: seq<Id>)
    requires Sound(s) && j < |s.jobs| && s.jobs[j].dataClass != AuditEvents
    ensures Gone(s, j, now, workspaces, Completes) == EligibleIds(s, j, now)
  {
    var gone, ids := Gone(s, j, now, workspaces, Completes), EligibleIds(s, j, now);
    GoneIsEligible(s, j, now, workspaces, Completes);
    forall id <- ids ensures id in gone {
      var q :| q in s.rows && Deletable(q, s.holds, s.jobs[j].dataClass, s.jobs[j].cutoff, now) && q.id == id;
      var k :| 0 <= k < |s.rows| && s.rows[k] == q;
      EligibleIsDue(s, j, now, q);
      GoneIff(s, j, now, workspaces, k);
    }
  }

  lemma {:induction false} DeletedExactly(rows: seq<Row>, gone: set<Id>)
    requires DistinctIds(rows) && gone <= Ids(rows)
    ensures |rows| - |Without(rows, gone)| == |gone|
    decreases |rows|
  {
    if rows == [] {
      assert gone == {};
    } else {
      var id, rest := rows[0].id, rows[1..];
      WithoutOther(rest, gone, id);
      assert forall r :: r in rows <==> r == rows[0] || r in rest;
      assert forall r <- rest :: r.id != id;
      DeletedExactly(rest, gone - {id});
    }
  }
}
