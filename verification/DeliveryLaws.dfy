/** What the delivery reports show, said about the events themselves. */
module DeliveryLaws {
  import opened DeliveryReports
  import opened Wrappers

  // ---- Cumulative flow

  /** The k-th event decides: it is the issue's, not later than the instant, and every other such event is
      earlier, or simultaneous and before it in the input. */
  ghost predicate Decides(histories: seq<History>, id: Id, day: int, k: nat) {
    && k < |histories| && histories[k].issueId == id && histories[k].occurredAt <= day
    && forall j :: 0 <= j < |histories| && histories[j].issueId == id && histories[j].occurredAt <= day ==>
      histories[j].occurredAt < histories[k].occurredAt
      || (histories[j].occurredAt == histories[k].occurredAt && j <= k)
  }

  lemma {:induction false} LatestDecides(histories: seq<History>, id: Id, day: int)
    ensures forall k: nat :: Decides(histories, id, day, k) ==> Latest(histories, id, day) == Some(histories[k])
    ensures Latest(histories, id, day).Some? ==> exists k: nat :: Decides(histories, id, day, k)
    decreases |histories|
  {
    if histories != [] {
      var front := histories[..|histories| - 1];
      LatestDecides(front, id, day);
      LatestMeans(front, id, day);
      if i: nat :| Decides(front, id, day, i) {
        LastOrBefore(histories, id, day, i);
      } else {
        OnlyLast(histories, id, day);
      }
    }
  }

  lemma DecidesOnce(histories: seq<History>, id: Id, day: int, j: nat, k: nat)
    requires Decides(histories, id, day, j) && Decides(histories, id, day, k)
    ensures j == k
  {}

  /** Either the last event decides, or the one that decided before it. */
  lemma LastOrBefore(histories: seq<History>, id: Id, day: int, i: nat)
    requires histories != []
    requires var front := histories[..|histories| - 1];
      && Decides(front, id, day, i) && Latest(front, id, day) == Some(front[i])
    ensures forall k: nat :: Decides(histories, id, day, k) ==> Latest(histories, id, day) == Some(histories[k])
    ensures exists k: nat :: Decides(histories, id, day, k)
  {
    var n := |histories| - 1;
    var front, last := histories[..n], histories[n];
    var d := if last.issueId == id && last.occurredAt <= day && front[i].occurredAt <= last.occurredAt then n else i;
    forall j | 0 <= j < |histories| && histories[j].issueId == id && histories[j].occurredAt <= day
      ensures histories[j].occurredAt < histories[d].occurredAt
              || (histories[j].occurredAt == histories[d].occurredAt && j <= d)
    {
      if j < n { assert front[j] == histories[j]; }
    }
    assert Decides(histories, id, day, d);
    forall k: nat | Decides(histories, id, day, k) ensures k == d { DecidesOnce(histories, id, day, k, d); }
  }

  lemma OnlyLast(histories: seq<History>, id: Id, day: int)
    requires histories != []
    requires var front := histories[..|histories| - 1];
      && Latest(front, id, day).None? && forall h <- front :: !Eligible(h, id, day)
    ensures forall k: nat :: Decides(histories, id, day, k) ==> Latest(histories, id, day) == Some(histories[k])
    ensures Latest(histories, id, day).Some? ==> exists k: nat :: Decides(histories, id, day, k)
  {
    var n := |histories| - 1;
    forall j | 0 <= j < n ensures !Eligible(histories[j], id, day) { assert histories[..n][j] in histories[..n]; }
    if Latest(histories, id, day).Some? { assert Decides(histories, id, day, n); }
    forall k: nat | Decides(histories, id, day, k) ensures k == n {
      assert k < n ==> !Eligible(histories[k], id, day);
    }
  }

  /** By the instant the issue is in the category: the deciding event says so. */
  ghost predicate Stands(histories: seq<History>, id: Id, day: int, c: Category) {
    exists k: nat :: Decides(histories, id, day, k) && histories[k].category == c
  }

  ghost function Standing(histories: seq<History>, day: int, c: Category): set<Id> {
    set h <- histories | Stands(histories, h.issueId, day, c) :: h.issueId
  }

  lemma StateIsStanding(histories: seq<History>, day: int, c: Category)
    ensures StateSet(histories, IdsOf(histories), day, c) == Standing(histories, day, c)
  {
    forall id ensures InState(histories, id, day, c) <==> Stands(histories, id, day, c) {
      LatestDecides(histories, id, day);
    }
  }

  /** Each count of a point is of the issues that stand in its own category. */
  lemma FlowMeans(histories: seq<History>, day: int)
    ensures var p := FlowAt(histories, day);
      && p.day == day
      && p.todo == |Standing(histories, day, Todo)|
      && p.inProgress == |Standing(histories, day, InProgress)|
      && p.done == |Standing(histories, day, Done)|
      && p.total == p.todo + p.inProgress + p.done
  {
    StateIsStanding(histories, day, Todo);
    StateIsStanding(histories, day, InProgress);
    StateIsStanding(histories, day, Done);
  }

  // ---- Burndown

  /** The last of the input's events that are the issue's, not later than the instant, and of interest. */
  ghost predicate Newest(histories: seq<History>, id: Id, day: int, scopeOnly: bool, k: nat) {
    && k < |histories| && Concerns(histories[k], id, day, scopeOnly)
    && forall j :: k < j < |histories| ==> !Concerns(histories[j], id, day, scopeOnly)
  }

  /** For the scope only coming and going count. */
  ghost predicate Concerns(h: History, id: Id, day: int, scopeOnly: bool) {
    h.issueId == id && h.occurredAt <= day && (scopeOnly ==> h.event == SprintAdded || h.event == SprintRemoved)
  }

  lemma {:induction false} LastIsNewest(histories: seq<History>, id: Id, day: int, scopeOnly: bool)
    ensures forall k: nat :: Newest(histories, id, day, scopeOnly, k) ==>
      LastInput(histories, id, day, scopeOnly) == Some(histories[k])
    ensures LastInput(histories, id, day, scopeOnly).Some? ==>
      exists k: nat :: Newest(histories, id, day, scopeOnly, k)
    decreases |histories|
  {
    if histories != [] {
      var n := |histories| - 1;
      var front := histories[..n];
      LastIsNewest(front, id, day, scopeOnly);
      if Concerns(histories[n], id, day, scopeOnly) {
        assert Newest(histories, id, day, scopeOnly, n);
      } else {
        forall k: nat ensures Newest(histories, id, day, scopeOnly, k) <==> Newest(front, id, day, scopeOnly, k) {
          if k < n { assert histories[k] == front[k]; }
        }
      }
    }
  }

  /** The member came by the instant, and its last coming or going by then is not a going. */
  ghost predicate Belongs(histories: seq<History>, m: Membership, day: int) {
    && m.addedAt <= day
    && !exists k: nat :: Newest(histories, m.issueId, day, true, k) && histories[k].event == SprintRemoved
  }

  ghost predicate Finished(histories: seq<History>, m: Membership, day: int) {
    exists k: nat :: Newest(histories, m.issueId, day, false, k) && histories[k].category == Done
  }

  /** The estimate of the newest event, or that of the membership where it has none. */
  ghost predicate Estimated(histories: seq<History>, m: Membership, day: int, points: Option<int>) {
    if exists k: nat :: Newest(histories, m.issueId, day, false, k) && histories[k].estimate != None
    then exists k: nat :: Newest(histories, m.issueId, day, false, k) && histories[k].estimate == points
    else points == m.estimate
  }

  lemma MemberMeans(histories: seq<History>, m: Membership, day: int)
    ensures InScope(histories, m, day) <==> Belongs(histories, m, day)
    ensures IsDone(histories, m, day) <==> Finished(histories, m, day)
    ensures Estimated(histories, m, day, EstimateOf(histories, m, day))
  {
    LastIsNewest(histories, m.issueId, day, true);
    LastIsNewest(histories, m.issueId, day, false);
  }

  /** Members count one by one. */
  lemma {:induction false} WorkPiecewise(
    histories: seq<History>, a: seq<Membership>, b: seq<Membership>, day: int, done: Option<bool>)
    ensures Work(histories, a + b, day, done) == Work(histories, a, day, done) + Work(histories, b, day, done)
    ensures Unestimated(histories, a + b, day) == Unestimated(histories, a, day) + Unestimated(histories, b, day)
    decreases |b|
  {
    if b == [] {
      assert a + b == a;
    } else {
      var n := |b| - 1;
      assert (a + b)[..|a + b| - 1] == a + b[..n];
      WorkPiecewise(histories, a, b[..n], day, done);
    }
  }

  /** A member that belongs adds its estimate, if it has one, to the scope and to one side of it. */
  lemma WorkOfOne(histories: seq<History>, m: Membership, day: int) returns (points: Option<int>)
    ensures Estimated(histories, m, day, points)
    ensures var n := match points case Some(p) => p case None => 0;
      var counted, finished := Belongs(histories, m, day), Finished(histories, m, day);
      && Work(histories, [m], day, None) == (if counted then n else 0)
      && Work(histories, [m], day, Some(true)) == (if counted && finished then n else 0)
      && Work(histories, [m], day, Some(false)) == (if counted && !finished then n else 0)
      && Unestimated(histories, [m], day) == if counted && points == None then 1 else 0
  {
    MemberMeans(histories, m, day);
    points := EstimateOf(histories, m, day);
    assert [m][..0] == [];
  }
}
