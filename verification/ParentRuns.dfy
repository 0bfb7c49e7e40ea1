/** What runs do to the hierarchy.  Moves check for cycles and governed deletion only cuts chains, but
    publications check nothing again and an imported file brings parents of its own. */
module ParentRuns {
  import opened IssueRuns
  import opened Issues
  import opened Publications
  import opened ServiceQueues
  import opened Wrappers
  import opened Writers
  import Forest
  import Hierarchy
  import S = Scenarios

  /** The steps after which some issue can have another parent than before. */
  predicate Regroups(s: Step) {
    s.Publish? || s.Reparent? || s.Purge? || s.Create?
  }

  lemma ParentStays(w: World, s: Step, id: Id)
    requires Stored(w) && !Regroups(s) && id in w.issues
    ensures id in Next(w, s).issues && Next(w, s).issues[id].parentId == w.issues[id].parentId
  {
    if s.Triage? && Triaged(w.cfg, w.issues, w.snapshots, s.reader, s.agent, s.action).Some? {
      TriagedRow(w, s, id);
    }
  }

  lemma OtherStepKeepsForest(w: World, s: Step)
    requires Stored(w) && !Regroups(s) && Hierarchy.ParentsFormForest(w.issues)
    ensures Hierarchy.ParentsFormForest(Next(w, s).issues)
  {
    var v := Next(w, s);
    StepAdvances(w, s);
    assert v.issues.Keys == w.issues.Keys by {
      forall id <- w.issues ensures id in v.issues { ParentStays(w, s, id); }
      forall id <- v.issues ensures id in w.issues { IdsStay(w, s, id); }
    }
    assert Hierarchy.ParentsOf(v.issues) == Hierarchy.ParentsOf(w.issues) by {
      forall id <- w.issues ensures v.issues[id].parentId == w.issues[id].parentId { ParentStays(w, s, id); }
    }
  }

  lemma IdsStay(w: World, s: Step, id: Id)
    requires Stored(w) && !Regroups(s) && id in Next(w, s).issues
    ensures id in w.issues
  {}

  lemma PurgeKeepsForest(w: World, ids: set<Id>)
    requires Hierarchy.ParentsFormForest(w.issues)
    ensures Hierarchy.ParentsFormForest(Purged(w.issues, ids))
  {
    var before, after := Hierarchy.ParentsOf(w.issues), Hierarchy.ParentsOf(Purged(w.issues, ids));
    var cut := set id <- w.issues | Forest.Step(after, id) != Forest.Step(before, id);
    forall id <- cut ensures Forest.Ends(after, id) {
      assert Forest.Climb(after, id, 0) == Some(id);
      assert Forest.Climb(after, id, 1).None?;
    }
    Forest.MovedForestIff(before, after, cut);
  }

  // ---- Imports

  lemma StepsAmongOld(issues: Table, rows: Table, x: Id)
    requires ParentsStored(issues) && issues.Keys !! rows.Keys && x in issues
    ensures var p, q := Hierarchy.ParentsOf(issues), Hierarchy.ParentsOf(issues + rows);
      && Forest.Step(q, x) == Forest.Step(p, x)
      && (Forest.Step(q, x).Some? ==> Forest.Step(q, x).value in issues)
  {}

  /** New rows keep the parents a forest exactly when theirs form one taken alone, so the file decides. */
  lemma ImportForestIff(issues: Table, rows: Table)
    requires Hierarchy.ParentsFormForest(issues) && ParentsStored(issues) && issues.Keys !! rows.Keys
    ensures Hierarchy.ParentsFormForest(issues + rows) <==> Hierarchy.ParentsFormForest(rows)
  {
    var p, q, r := Hierarchy.ParentsOf(issues), Hierarchy.ParentsOf(issues + rows), Hierarchy.ParentsOf(rows);
    forall id <- issues.Keys { StepsAmongOld(issues, rows, id); }
    forall id <- issues.Keys ensures Forest.Ends(r, id) && Forest.Ends(q, id) {
      assert Forest.Climb(r, id, 0) == Some(id);
      assert Forest.Climb(r, id, 1).None?;
      assert Forest.Ends(p, id);
      var n: nat :| Forest.Climb(p, id, n).None?;
      Forest.ClimbInside(p, q, issues.Keys, id, n);
      assert Forest.Climb(q, id, n).None?;
    }
    if Hierarchy.ParentsFormForest(rows) { Forest.MovedForestIff(r, q, issues.Keys); }
    if Hierarchy.ParentsFormForest(issues + rows) { Forest.MovedForestIff(q, r, issues.Keys); }
  }

  /** Nothing else stops a file in which two rows name each other as parent. */
  lemma ImportCanCloseCycle(w: World, a: Id, b: Id, row: Issue)
    requires a != b && a !in w.used && b !in w.used
    requires row.parentId.None? && NewRow(w.cfg, map[], a, row)
    ensures var rows := map[a := row.(parentId := Some(b)), b := row.(parentId := Some(a))];
      && Creatable(w.cfg, w.issues, w.used, rows)
      && Next(w, Create(rows)).issues == w.issues + rows
      && !Hierarchy.ParentsFormForest(w.issues + rows)
  {
    var rows := map[a := row.(parentId := Some(b)), b := row.(parentId := Some(a))];
    var q := Hierarchy.ParentsOf(w.issues + rows);
    assert Forest.Climb(q, a, 0) == Some(a);
    assert Forest.Climb(q, a, 1) == Some(b);
    assert Forest.Climb(q, a, 2) == Some(a);
    if Forest.Ends(q, a) { Forest.ForestHasNoLoop(q, a, 2); }
  }

  // ---- Runs

  /** Above every issue a publication gave a parent the chain still ends, and imported parents loop nowhere. */
  ghost predicate ChainsEnd(w: World, s: Step) {
    match s
    case Publish(p) =>
      S.Published(w.issues, w.changes, p).Some? ==>
        forall id <- Reparented(S.ValidOf(w.issues, w.changes, p)) ::
          Forest.Ends(Hierarchy.ParentsOf(Next(w, s).issues), id)
    case Create(rows) => Creatable(w.cfg, w.issues, w.used, rows) ==> Hierarchy.ParentsFormForest(rows)
    case _ => true
  }

  lemma StepKeepsForestIff(w: World, s: Step)
    requires Stored(w) && Hierarchy.ParentsFormForest(w.issues)
    ensures Hierarchy.ParentsFormForest(Next(w, s).issues) <==> ChainsEnd(w, s)
  {
    match s
    case Publish(p) =>
      if S.Published(w.issues, w.changes, p).Some? { PublicationForestIff(w.issues, w.changes, p); }
    case Reparent(m) => Hierarchy.MoveKeepsForest(w.issues, m);
    case Purge(ids) => PurgeKeepsForest(w, ids);
    case Create(rows) =>
      if Creatable(w.cfg, w.issues, w.used, rows) {
        assert forall id <- rows.Keys :: id !in w.used;
        ImportForestIff(w.issues, rows);
      }
    case _ => OtherStepKeepsForest(w, s);
  }

  ghost predicate ForestThroughout(w: World, steps: seq<Step>)
    decreases |steps|
  {
    && Hierarchy.ParentsFormForest(w.issues)
    && (steps == [] || ForestThroughout(Next(w, steps[0]), steps[1..]))
  }

  ghost predicate ChainsEndThroughout(w: World, steps: seq<Step>)
    decreases |steps|
  {
    steps == [] || (ChainsEnd(w, steps[0]) && ChainsEndThroughout(Next(w, steps[0]), steps[1..]))
  }

  /** Over any run of everything that writes issues: the parents stay a forest if and only if no publication
      and no import breaks it by itself. */
  lemma {:induction false} RunKeepsForestIff(w: World, steps: seq<Step>)
    requires Stored(w) && Hierarchy.ParentsFormForest(w.issues)
    ensures ForestThroughout(w, steps) <==> ChainsEndThroughout(w, steps)
    decreases |steps|
  {
    if steps != [] {
      StepKeepsForestIff(w, steps[0]);
      if ChainsEnd(w, steps[0]) {
        StepAdvances(w, steps[0]);
        RunKeepsForestIff(Next(w, steps[0]), steps[1..]);
      }
    }
  }
}
