/** Goal hierarchies: the depth-bounded check over the goals a member may see. */
module Goals {
  import opened Wrappers
  import opened Forest

  const MAX_DEPTH := 100

  datatype Outcome = Accepted | Cycle | Invalid | TooDeep

  /** From `x` up, a goal without parent is reached within `n` goals, all of them visible. */
  predicate RootWithin(goals: Parents, visible: set<Id>, x: Id, n: nat)
    decreases n
  {
    n > 0 && x in visible && x in goals && (goals[x].None? || RootWithin(goals, visible, goals[x].value, n - 1))
  }

  /** The n-th goal of the chain above `x` is not there or not visible. */
  predicate HiddenAt(goals: Parents, visible: set<Id>, x: Id, n: nat) {
    var y := Climb(goals, x, n);
    y.Some? && !(y.value in visible && y.value in goals)
  }

  /** The n-th goal from `x` up ends the walk: it is the goal itself, or one met before. */
  ghost predicate CycleAt(goals: Parents, x: Id, goal: Id, n: nat) {
    && Climb(goals, x, n).Some?
    && (Climb(goals, x, n) == Some(goal) || exists i: nat :: i < n && Climb(goals, x, i) == Climb(goals, x, n))
  }

  /** Up to the n-th goal nothing ends the walk. */
  ghost predicate ClearUpTo(goals: Parents, visible: set<Id>, x: Id, goal: Id, n: nat) {
    forall i: nat :: i < n ==>
      Climb(goals, x, i).Some? && !CycleAt(goals, x, goal, i) && !HiddenAt(goals, visible, x, i)
  }

  /** Accepts no parent, or one whose visible chain reaches a root within a hundred goals and avoids the goal. */
  method ValidateGoalParent(goals: Parents, visible: set<Id>, goal: Id, parent: Option<Id>) returns (r: Outcome)
    ensures r == Accepted <==>
      parent.None? || (RootWithin(goals, visible, parent.value, MAX_DEPTH) && !Meets(goals, parent.value, goal))
    ensures r == Cycle ==> parent.Some? && (Meets(goals, parent.value, goal) || !Ends(goals, parent.value))
    ensures r == Cycle ==> exists n: nat ::
      n < MAX_DEPTH && ClearUpTo(goals, visible, parent.value, goal, n) && CycleAt(goals, parent.value, goal, n)
    ensures r == Invalid ==> parent.Some? && exists n: nat ::
      n < MAX_DEPTH && ClearUpTo(goals, visible, parent.value, goal, n) && HiddenAt(goals, visible, parent.value, n)
        && !CycleAt(goals, parent.value, goal, n)
    ensures r == TooDeep ==>
      && parent.Some? && ClearUpTo(goals, visible, parent.value, goal, MAX_DEPTH)
      && Climb(goals, parent.value, MAX_DEPTH).Some?
  {
    if parent.None? { return Accepted; }
    var start := parent.value;
    var seen, cursor, depth := {goal}, parent, 0;
    assert Climb(goals, start, 0) == Some(start);
    while cursor.Some? && depth < MAX_DEPTH
      invariant 0 <= depth <= MAX_DEPTH
      invariant cursor == Climb(goals, start, depth)
      invariant seen == {goal} + set i: nat | i < depth && Climb(goals, start, i).Some? :: Climb(goals, start, i).value
      invariant forall i: nat :: i < depth ==> Climb(goals, start, i).Some? && Climb(goals, start, i) != Some(goal)
      invariant ClearUpTo(goals, visible, start, goal, depth)
      invariant RootWithin(goals, visible, start, MAX_DEPTH) <==>
        cursor.None? || RootWithin(goals, visible, cursor.value, MAX_DEPTH - depth)
      decreases MAX_DEPTH - depth
    {
      if cursor.value in seen {
        assert CycleAt(goals, start, goal, depth);
        if cursor.value == goal {
          assert Meets(goals, start, goal);
        } else {
          ghost var k: nat :| k < depth && Climb(goals, start, k) == cursor;
          Repeats(goals, start, k, depth, goal);
          if RootWithin(goals, visible, start, MAX_DEPTH) { RootEnds(goals, visible, start, MAX_DEPTH); }
        }
        return Cycle;
      }
      assert !CycleAt(goals, start, goal, depth) by {
        assert forall i: nat :: i < depth ==> Climb(goals, start, i).value in seen;
      }
      seen := seen + {cursor.value};
      if cursor.value !in goals || cursor.value !in visible {
        assert HiddenAt(goals, visible, start, depth);
        return Invalid;
      }
      assert !HiddenAt(goals, visible, start, depth);
      assert Climb(goals, start, depth + 1) == goals[cursor.value];
      cursor := goals[cursor.value];
      depth := depth + 1;
    }
    if cursor.Some? {
      return TooDeep;
    }
    r := Accepted;
    if Meets(goals, start, goal) {
      ghost var m: nat :| Climb(goals, start, m) == Some(goal);
      if m >= depth { EndedStaysEnded(goals, start, depth, m); }
      assert false;
    }
  }

  /** From the goal first named up to one without a parent, all of them there and visible. */
  ghost predicate Lineage(goals: Parents, visible: set<Id>, chain: seq<Id>) {
    && 0 < |chain| && (forall k :: 0 <= k < |chain| ==> chain[k] in goals && chain[k] in visible)
    && (forall k :: 0 <= k < |chain| - 1 ==> goals[chain[k]] == Some(chain[k + 1]))
    && goals[chain[|chain| - 1]] == None
  }

  lemma {:induction false} LineageOf(goals: Parents, visible: set<Id>, x: Id, n: nat) returns (chain: seq<Id>)
    requires RootWithin(goals, visible, x, n)
    ensures Lineage(goals, visible, chain) && chain[0] == x && |chain| <= n
    decreases n
  {
    chain := [x];
    if goals[x].Some? {
      var above := LineageOf(goals, visible, goals[x].value, n - 1);
      chain := [x] + above;
    }
  }

  lemma {:induction false} LineageReaches(goals: Parents, visible: set<Id>, chain: seq<Id>, n: nat)
    requires Lineage(goals, visible, chain) && |chain| <= n
    ensures RootWithin(goals, visible, chain[0], n)
    decreases |chain|
  {
    if |chain| > 1 { LineageReaches(goals, visible, chain[1..], n - 1); }
  }

  lemma {:induction false} LineageClimbs(goals: Parents, visible: set<Id>, chain: seq<Id>, k: nat)
    requires Lineage(goals, visible, chain)
    ensures Climb(goals, chain[0], k) == if k < |chain| then Some(chain[k]) else None
    decreases k
  {
    if k > 0 { LineageClimbs(goals, visible, chain, k - 1); }
  }

  /** An update goes through exactly under no parent, or at the lower end of at most a hundred visible goals
      up to one without a parent, of which it is none. */
  lemma AcceptedIff(goals: Parents, visible: set<Id>, id: Id, parent: Option<Id>)
    ensures Accepts(goals, Update(id, parent, visible)) <==>
      && id in goals && id in visible
      && (parent.None? || exists chain ::
            Lineage(goals, visible, chain) && chain[0] == parent.value && |chain| <= 100 && id !in chain)
  {
    if parent.Some? {
      var x := parent.value;
      if RootWithin(goals, visible, x, MAX_DEPTH) && !Meets(goals, x, id) {
        var chain := LineageOf(goals, visible, x, MAX_DEPTH);
        forall k | 0 <= k < |chain| ensures chain[k] != id { LineageClimbs(goals, visible, chain, k); }
      }
      if chain :| Lineage(goals, visible, chain) && chain[0] == x && |chain| <= 100 && id !in chain {
        LineageReaches(goals, visible, chain, MAX_DEPTH);
        forall k: nat ensures Climb(goals, x, k) != Some(id) { LineageClimbs(goals, visible, chain, k); }
      }
    }
  }

  lemma {:induction false} RootEnds(goals: Parents, visible: set<Id>, x: Id, n: nat)
    requires RootWithin(goals, visible, x, n)
    ensures Ends(goals, x)
    decreases n
  {
    assert Climb(goals, x, 0) == Some(x);
    assert Climb(goals, x, 1) == goals[x];
    if goals[x].Some? {
      RootEnds(goals, visible, goals[x].value, n - 1);
      var e: nat :| Climb(goals, goals[x].value, e).None?;
      ClimbOn(goals, x, 1, e);
      assert Climb(goals, x, 1 + e).None?;
    }
  }

  // ---- Runs of goal changes

  /** A new goal under a visible parent, or an update through the check by a viewer. */
  datatype Change =
    | Create(id: Id, parent: Option<Id>, visible: set<Id>)
    | Update(id: Id, parent: Option<Id>, visible: set<Id>)

  ghost predicate Accepts(goals: Parents, c: Change) {
    match c
    case Create(id, parent, visible) =>
      id !in goals && (parent.Some? ==> parent.value in goals && parent.value in visible)
    case Update(id, parent, visible) =>
      id in goals && id in visible
      && (parent.None? || (RootWithin(goals, visible, parent.value, MAX_DEPTH) && !Meets(goals, parent.value, id)))
  }

  ghost function Next(goals: Parents, c: Change): Parents {
    if Accepts(goals, c) then goals[c.id := c.parent] else goals
  }

  ghost function Run(goals: Parents, cs: seq<Change>): Parents
    decreases |cs|
  {
    if cs == [] then goals else Run(Next(goals, cs[0]), cs[1..])
  }

  /** Pointers lead to stored goals only. */
  ghost predicate Closed(goals: Parents) {
    forall x <- goals :: goals[x].Some? ==> goals[x].value in goals
  }

  lemma {:induction false} ChainStays(goals: Parents, x: Id, n: nat)
    requires Closed(goals) && x in goals
    ensures Climb(goals, x, n).Some? ==> Climb(goals, x, n).value in goals
    decreases n
  {
    if n > 0 { ChainStays(goals, x, n - 1); }
  }

  class GoalStore {
    var goals: Parents

    constructor ()
      ensures goals == map[]
    {
      goals := map[];
    }

    method UpdateGoal(id: Id, parent: Option<Id>, visible: set<Id>) returns (ok: bool)
      modifies this
      ensures goals == Next(old(goals), Update(id, parent, visible))
      ensures ok <==> Accepts(old(goals), Update(id, parent, visible))
    {
      if id !in goals || id !in visible { return false; }
      var outcome := ValidateGoalParent(goals, visible, id, parent);
      if outcome != Accepted { return false; }
      goals := goals[id := parent];
      ok := true;
    }
  }

  lemma ChangeKeepsForest(goals: Parents, c: Change)
    requires IsForest(goals) && Closed(goals)
    ensures IsForest(Next(goals, c)) && Closed(Next(goals, c))
  {
    if Accepts(goals, c) {
      if c.Create? && c.parent.Some? {
        forall n: nat ensures Climb(goals, c.parent.value, n) != Some(c.id) {
          ChainStays(goals, c.parent.value, n);
        }
      }
      HangKeepsForest(goals, c.id, c.parent);
    }
  }

  /** Any run of creations and checked updates, by viewers who see whatever part, keeps a forest. */
  lemma {:induction false} RunKeepsForest(goals: Parents, cs: seq<Change>)
    requires IsForest(goals) && Closed(goals)
    ensures IsForest(Run(goals, cs)) && Closed(Run(goals, cs))
    decreases |cs|
  {
    if cs != [] {
      ChangeKeepsForest(goals, cs[0]);
      RunKeepsForest(Next(goals, cs[0]), cs[1..]);
    }
  }
}
