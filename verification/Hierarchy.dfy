/** Moving an issue under another parent: rank rule, ancestor walk, guarded update. */
module Hierarchy {
  import opened Wrappers
  import opened Issues
  import Forest

  /** The planning level of an issue, if it has one, and whether its type is an epic. */
  datatype Placement = Placement(level: Option<int>, epic: bool)

  function Rank(p: Placement): Option<int> {
    if p.level.Some? then p.level else if p.epic then Some(10_000) else None
  }

  /** `permitted` stands for visibility and edit permission on both issues. */
  datatype Move = Move(permitted: bool, issueId: Id, parentId: Option<Id>, version: int, placements: map<Id, Placement>)

  predicate Live(issues: Table, id: Id) {
    id in issues && !issues[id].archived
  }

  function RankOf(m: Move, id: Id): Option<int> {
    if id in m.placements then Rank(m.placements[id]) else None
  }

  /** The parent stands strictly higher, that is, has the smaller rank. */
  predicate Eligible(m: Move) {
    m.parentId.Some? ==>
      var child, parent := RankOf(m, m.issueId), RankOf(m, m.parentId.value);
      child.Some? && parent.Some? && parent.value < child.value
  }

  function ParentsOf(issues: Table): Forest.Parents {
    map id | id in issues :: issues[id].parentId
  }

  /** The walk from the new parent ends without meeting the issue. */
  ghost predicate ClearAbove(issues: Table, m: Move) {
    m.parentId.Some? ==>
      Forest.Ends(ParentsOf(issues), m.parentId.value) && !Forest.Meets(ParentsOf(issues), m.parentId.value, m.issueId)
  }

  ghost function MoveStatus(issues: Table, m: Move): int {
    if m.version < 1 then 400
    else if !m.permitted || !Live(issues, m.issueId) || (m.parentId.Some? && !Live(issues, m.parentId.value)) then 404
    else if m.parentId == Some(m.issueId) || !Eligible(m) || !ClearAbove(issues, m) then 409
    else if m.version != issues[m.issueId].version then 409
    else 200
  }

  ghost function Moved(issues: Table, m: Move): Table {
    if MoveStatus(issues, m) != 200 then issues
    else issues[m.issueId := issues[m.issueId].(parentId := m.parentId, version := issues[m.issueId].version + 1)]
  }

  class IssueTree {
    var issues: Table

    constructor (issues: Table)
      ensures this.issues == issues
    {
      this.issues := issues;
    }

    method ReparentIssue(m: Move) returns (status: int)
      modifies this
      ensures status == MoveStatus(old(issues), m)
      ensures issues == Moved(old(issues), m)
    {
      if m.version < 1 { return 400; }
      if !m.permitted || !Live(issues, m.issueId) { return 404; }
      if m.parentId.Some? {
        var parent := m.parentId.value;
        if !Live(issues, parent) { return 404; }
        if parent == m.issueId { return 409; }
        var childRank, parentRank := RankOf(m, m.issueId), RankOf(m, parent);
        if childRank.None? || parentRank.None? || parentRank.value >= childRank.value { return 409; }
        var walk := Forest.WalkUp(ParentsOf(issues), parent, m.issueId);
        if walk != Forest.Clear { return 409; }
      }
      var child := issues[m.issueId];
      if child.version != m.version { return 409; }
      issues := issues[m.issueId := child.(parentId := m.parentId, version := child.version + 1)];
      status := 200;
    }
  }

  ghost predicate ParentsFormForest(issues: Table) {
    Forest.IsForest(ParentsOf(issues))
  }

  lemma MoveKeepsForest(issues: Table, m: Move)
    requires ParentsFormForest(issues)
    ensures ParentsFormForest(Moved(issues, m))
  {
    if MoveStatus(issues, m) == 200 {
      Forest.HangKeepsForest(ParentsOf(issues), m.issueId, m.parentId);
      assert ParentsOf(Moved(issues, m)) == ParentsOf(issues)[m.issueId := m.parentId];
    }
  }

  /** In a forest a move between eligible live issues is refused for a cycle exactly when it would make one. */
  lemma CycleRefusalIsExact(issues: Table, m: Move)
    requires ParentsFormForest(issues) && m.parentId.Some? && Live(issues, m.issueId)
    ensures ClearAbove(issues, m) <==> Forest.IsForest(ParentsOf(issues)[m.issueId := m.parentId])
  {
    var p := ParentsOf(issues);
    assert Forest.Ends(p, m.parentId.value);
    if ClearAbove(issues, m) {
      Forest.HangKeepsForest(p, m.issueId, m.parentId);
    } else {
      Forest.HangUnderDescendantLoops(p, m.issueId, m.parentId.value);
    }
  }

  /** Any run of moves keeps the parent pointers a forest. */
  lemma {:induction false} MovesKeepForest(issues: Table, moves: seq<Move>)
    requires ParentsFormForest(issues)
    ensures ParentsFormForest(AfterMoves(issues, moves))
    decreases |moves|
  {
    if moves != [] {
      MoveKeepsForest(issues, moves[0]);
      MovesKeepForest(Moved(issues, moves[0]), moves[1..]);
    }
  }

  ghost function AfterMoves(issues: Table, moves: seq<Move>): Table
    decreases |moves|
  {
    if moves == [] then issues else AfterMoves(Moved(issues, moves[0]), moves[1..])
  }
}
