/** Weekly capacity against allocations: UTC weeks that begin on Monday, team capacity, and the
    report whose weeks together account for every allocation.  Instants in milliseconds. */
module CapacityPlanning {
  import opened Basics
  import opened Wrappers

  type Id = int

  const DAY := 86_400_000
  const WEEK := 7 * DAY

  // ---- Weeks

  /** Sunday is 0; day zero of the epoch was a Thursday. */
  function Weekday(instant: int): int {
    (instant / DAY + 4) % 7
  }

  predicate MondayMidnight(instant: int) {
    instant % DAY == 0 && Weekday(instant) == 1
  }

  /** The Monday midnight that begins the week of the instant. */
  function WeekKey(instant: int): (r: int)
    ensures MondayMidnight(r) && r <= instant < r + WEEK
  {
    instant / DAY * DAY - (Weekday(instant) + 6) % 7 * DAY
  }

  lemma MondaysAreWeeksApart(a: int, b: int)
    requires MondayMidnight(a) && MondayMidnight(b)
    ensures (b - a) % WEEK == 0
  {
    var x, y := a / DAY, b / DAY;
    assert a == x * DAY && b == y * DAY;
    assert (y - x) % 7 == 0;
    assert b - a == (y - x) / 7 * WEEK;
  }

  /** It is the only one: bucketing is idempotent, and same week means same key. */
  lemma WeekKeyIsUnique(instant: int, monday: int)
    ensures MondayMidnight(monday) && monday <= instant < monday + WEEK <==> monday == WeekKey(instant)
  {
    if MondayMidnight(monday) && monday <= instant < monday + WEEK {
      MondaysAreWeeksApart(WeekKey(instant), monday);
    }
  }

  // ---- Capacity of a team in a week

  datatype Member = Member(userId: Id, startsAt: int, endsAt: Option<int>, weeklyCapacityPoints: Option<int>)
  datatype Change = Change(effectiveFrom: int, weeklyCapacityPoints: int)
  datatype Availability = Availability(userId: Id, weekStart: int, capacityPoints: int)
  datatype Holiday = Holiday(date: int, capacityReductionPoints: int)
  datatype Team = Team(
    id: Id, members: seq<Member>, capacities: seq<Change>, availability: seq<Availability>, holidays: seq<Holiday>)
  datatype Allocation = Allocation(
    planId: Id, issueId: Id, teamId: Id, weekStart: int, estimatePoints: int, version: nat)

  function UpTo(changes: seq<Change>, start: int): seq<Change> {
    if changes == [] then []
    else UpTo(changes[..|changes| - 1], start)
         + if changes[|changes| - 1].effectiveFrom <= start then [changes[|changes| - 1]] else []
  }

  /** Latest first; of simultaneous changes the earlier in the input first. */
  function LatestFirst(changes: seq<Change>): seq<Change> {
    if changes == [] then [] else Place(LatestFirst(changes[..|changes| - 1]), changes[|changes| - 1])
  }

  function Place(sorted: seq<Change>, c: Change): seq<Change> {
    if sorted == [] then [c]
    else if sorted[|sorted| - 1].effectiveFrom >= c.effectiveFrom then sorted + [c]
    else Place(sorted[..|sorted| - 1], c) + [sorted[|sorted| - 1]]
  }

  function DefaultCapacity(team: Team, start: int): int {
    var sorted := LatestFirst(UpTo(team.capacities, start));
    if sorted == [] then 0 else sorted[0].weeklyCapacityPoints
  }

  /** The change in force: no other that is effective by then is later. */
  predicate InForce(changes: seq<Change>, start: int, c: Change) {
    c in changes && c.effectiveFrom <= start
    && forall o <- changes :: o.effectiveFrom <= start ==> o.effectiveFrom <= c.effectiveFrom
  }

  predicate Descending(s: seq<Change>) {
    forall i, j :: 0 <= i < j < |s| ==> s[i].effectiveFrom >= s[j].effectiveFrom
  }

  lemma {:induction false} PlaceKeepsElements(sorted: seq<Change>, c: Change)
    ensures multiset(Place(sorted, c)) == multiset(sorted) + multiset{c}
    decreases |sorted|
  {
    if sorted != [] {
      var front, last := sorted[..|sorted| - 1], sorted[|sorted| - 1];
      assert sorted == front + [last];
      PlaceKeepsElements(front, c);
    }
  }

  lemma {:induction false} PlaceSorts(sorted: seq<Change>, c: Change)
    requires Descending(sorted)
    ensures Descending(Place(sorted, c))
    decreases |sorted|
  {
    if sorted != [] && sorted[|sorted| - 1].effectiveFrom < c.effectiveFrom {
      var front, last := sorted[..|sorted| - 1], sorted[|sorted| - 1];
      PlaceSorts(front, c);
      PlaceKeepsElements(front, c);
      forall x <- Place(front, c) ensures x.effectiveFrom >= last.effectiveFrom {
        assert x in multiset(Place(front, c));
        assert x in multiset(front) ==> x in front;
      }
    }
  }

  lemma {:induction false} SortSorts(changes: seq<Change>)
    ensures Descending(LatestFirst(changes)) && multiset(LatestFirst(changes)) == multiset(changes)
    decreases |changes|
  {
    if changes != [] {
      var front, last := changes[..|changes| - 1], changes[|changes| - 1];
      assert changes == front + [last];
      SortSorts(front);
      PlaceSorts(LatestFirst(front), last);
      PlaceKeepsElements(LatestFirst(front), last);
    }
  }

  lemma {:induction false} UpToKeeps(changes: seq<Change>, start: int, c: Change)
    ensures c in UpTo(changes, start) <==> c in changes && c.effectiveFrom <= start
    decreases |changes|
  {
    if changes != [] {
      var front, last := changes[..|changes| - 1], changes[|changes| - 1];
      assert changes == front + [last];
      UpToKeeps(front, start, c);
    }
  }

  /** The default capacity of a week is that of the change in force when it begins, or zero. */
  lemma DefaultIsInForce(team: Team, start: int) returns (c: Option<Change>)
    ensures c.None? ==> DefaultCapacity(team, start) == 0 && forall o <- team.capacities :: o.effectiveFrom > start
    ensures c.Some? ==>
      InForce(team.capacities, start, c.value) && DefaultCapacity(team, start) == c.value.weeklyCapacityPoints
  {
    var found := UpTo(team.capacities, start);
    var sorted := LatestFirst(found);
    SortSorts(found);
    forall o ensures o in sorted <==> o in team.capacities && o.effectiveFrom <= start {
      assert o in multiset(sorted) <==> o in multiset(found);
      UpToKeeps(team.capacities, start, o);
    }
    if sorted == [] {
      c := None;
    } else {
      c := Some(sorted[0]);
      assert sorted[0] in sorted;
    }
  }

  function Available(rows: seq<Availability>, userId: Id, start: int): Option<int> {
    if rows == [] then None
    else if rows[0].userId == userId && rows[0].weekStart == start then Some(rows[0].capacityPoints)
    else Available(rows[1..], userId, start)
  }

  predicate Present(m: Member, start: int) {
    m.startsAt < start + WEEK && (m.endsAt.None? || m.endsAt.value >= start)
  }

  function MemberPoints(team: Team, m: Member, start: int): int {
    Available(team.availability, m.userId, start).GetOr(m.weeklyCapacityPoints.GetOr(DefaultCapacity(team, start)))
  }

  function MembersPoints(team: Team, members: seq<Member>, start: int): int {
    if members == [] then 0
    else MembersPoints(team, members[..|members| - 1], start)
         + if Present(members[|members| - 1], start) then MemberPoints(team, members[|members| - 1], start) else 0
  }

  function HolidayPoints(holidays: seq<Holiday>, start: int): int {
    if holidays == [] then 0
    else HolidayPoints(holidays[..|holidays| - 1], start)
         + var h := holidays[|holidays| - 1]; if start <= h.date < start + WEEK then h.capacityReductionPoints else 0
  }

  function Capacity(team: Team, start: int): int {
    Max(0, MembersPoints(team, team.members, start) - HolidayPoints(team.holidays, start))
  }

  function Allocated(allocations: seq<Allocation>, teamId: Id, start: int): int {
    if allocations == [] then 0
    else
      var a := allocations[|allocations| - 1];
      Allocated(allocations[..|allocations| - 1], teamId, start)
      + if a.teamId == teamId && a.weekStart == start then a.estimatePoints else 0
  }

  // ---- The report

  datatype TeamWeek = TeamWeek(id: Id, capacity: int, allocatedPoints: int, remaining: int, overAllocated: bool)
  datatype Week = Week(
    weekStart: int, teams: seq<TeamWeek>, totalCapacity: int, totalAllocated: int, unassignedPoints: int)

  function TeamWeekOf(team: Team, allocations: seq<Allocation>, start: int): TeamWeek {
    var capacity, planned := Capacity(team, start), Allocated(allocations, team.id, start);
    TeamWeek(team.id, capacity, planned, capacity - planned, planned > capacity)
  }

  function TotalCapacity(teams: seq<Team>, start: int): int {
    if teams == [] then 0 else TotalCapacity(teams[..|teams| - 1], start) + Capacity(teams[|teams| - 1], start)
  }

  function TotalAllocated(teams: seq<Team>, allocations: seq<Allocation>, start: int): int {
    if teams == [] then 0
    else TotalAllocated(teams[..|teams| - 1], allocations, start) + Allocated(allocations, teams[|teams| - 1].id, start)
  }

  predicate Reports(w: Week, teams: seq<Team>, allocations: seq<Allocation>, start: int) {
    && w.weekStart == start && |w.teams| == |teams|
    && (forall j :: 0 <= j < |teams| ==> w.teams[j] == TeamWeekOf(teams[j], allocations, start))
    && w.totalCapacity == TotalCapacity(teams, start) && w.totalAllocated == TotalAllocated(teams, allocations, start)
  }

  /** The k-th entry: the figures of its week, and the unassigned points with the first. */
  predicate EntryOf(
    w: Week, teams: seq<Team>, allocations: seq<Allocation>, from: int, k: nat, unassignedPoints: int)
  {
    && Reports(w, teams, allocations, from + k * WEEK)
    && w.unassignedPoints == if k == 0 then unassignedPoints else 0
  }

  function SumAllocated(weeks: seq<Week>): int {
    if weeks == [] then 0 else SumAllocated(weeks[..|weeks| - 1]) + weeks[|weeks| - 1].totalAllocated
  }

  function SumUnassigned(weeks: seq<Week>): int {
    if weeks == [] then 0 else SumUnassigned(weeks[..|weeks| - 1]) + weeks[|weeks| - 1].unassignedPoints
  }

  /** One entry per week with every team's figures; the weeks together account for exactly the
      allocations of listed teams that start on one of them, and for the unassigned points once. */
  method CalculateCapacity(from: int, weeks: nat, teams: seq<Team>, allocations: seq<Allocation>, unassignedPoints: int)
    returns (result: seq<Week>)
    ensures |result| == weeks
    ensures forall k :: 0 <= k < weeks ==> EntryOf(result[k], teams, allocations, from, k, unassignedPoints)
    ensures DistinctTeams(teams) ==> SumAllocated(result) == Accounted(teams, allocations, from, weeks)
    ensures SumUnassigned(result) == if weeks > 0 then unassignedPoints else 0
  {
    result := [];
    for index := 0 to weeks
      invariant |result| == index
      invariant forall k :: 0 <= k < index ==> EntryOf(result[k], teams, allocations, from, k, unassignedPoints)
    {
      var week := CalculateWeek(from + index * WEEK, teams, allocations, if index == 0 then unassignedPoints else 0);
      result := result + [week];
    }
    SumsAre(result, teams, allocations, from, unassignedPoints);
    if DistinctTeams(teams) { GrandIsAccounted(teams, allocations, from, weeks); }
  }

  lemma {:induction false} SumsAre(
    weeks: seq<Week>, teams: seq<Team>, allocations: seq<Allocation>, from: int, unassignedPoints: int)
    requires forall k :: 0 <= k < |weeks| ==> EntryOf(weeks[k], teams, allocations, from, k, unassignedPoints)
    ensures SumAllocated(weeks) == Grand(teams, allocations, from, |weeks|)
    ensures SumUnassigned(weeks) == if |weeks| > 0 then unassignedPoints else 0
    decreases |weeks|
  {
    if weeks != [] {
      var n := |weeks| - 1;
      SumsAre(weeks[..n], teams, allocations, from, unassignedPoints);
      assert EntryOf(weeks[n], teams, allocations, from, n, unassignedPoints);
    }
  }

  method CalculateWeek(
    start: int, teams: seq<Team>, allocations: seq<Allocation>, unassignedPoints: int)
    returns (week: Week)
    ensures Reports(week, teams, allocations, start) && week.unassignedPoints == unassignedPoints
  {
    var rows: seq<TeamWeek>, totalCapacity, totalAllocated := [], 0, 0;
    for j := 0 to |teams|
      invariant |rows| == j && forall i :: 0 <= i < j ==> rows[i] == TeamWeekOf(teams[i], allocations, start)
      invariant totalCapacity == TotalCapacity(teams[..j], start)
      invariant totalAllocated == TotalAllocated(teams[..j], allocations, start)
    {
      assert teams[..j + 1][..j] == teams[..j];
      var row := TeamWeekOf(teams[j], allocations, start);
      rows := rows + [row];
      totalCapacity, totalAllocated := totalCapacity + row.capacity, totalAllocated + row.allocatedPoints;
    }
    assert teams[..|teams|] == teams;
    week := Week(start, rows, totalCapacity, totalAllocated, unassignedPoints);
  }

  // ---- What the weeks account for

  predicate DistinctTeams(teams: seq<Team>) {
    forall i, j :: 0 <= i < j < |teams| ==> teams[i].id != teams[j].id
  }

  predicate Listed(teams: seq<Team>, id: Id) {
    exists t <- teams :: t.id == id
  }

  predicate OnWeek(from: int, weeks: nat, start: int) {
    (start - from) % WEEK == 0 && from <= start < from + weeks * WEEK
  }

  function Accounted(teams: seq<Team>, allocations: seq<Allocation>, from: int, weeks: nat): int {
    if allocations == [] then 0
    else
      var a := allocations[|allocations| - 1];
      Accounted(teams, allocations[..|allocations| - 1], from, weeks)
      + if Listed(teams, a.teamId) && OnWeek(from, weeks, a.weekStart) then a.estimatePoints else 0
  }

  function Grand(teams: seq<Team>, allocations: seq<Allocation>, from: int, weeks: nat): int {
    if weeks == 0 then 0
    else Grand(teams, allocations, from, weeks - 1) + TotalAllocated(teams, allocations, from + (weeks - 1) * WEEK)
  }

  lemma {:induction false} WeekGains(teams: seq<Team>, front: seq<Allocation>, a: Allocation, start: int)
    requires DistinctTeams(teams)
    ensures TotalAllocated(teams, front + [a], start) == TotalAllocated(teams, front, start)
      + if Listed(teams, a.teamId) && a.weekStart == start then a.estimatePoints else 0
    decreases |teams|
  {
    assert (front + [a])[..|front|] == front;
    if teams != [] {
      var rest, last := teams[..|teams| - 1], teams[|teams| - 1];
      WeekGains(rest, front, a, start);
      assert last in teams && forall t <- rest :: t in teams;
      assert forall t <- teams :: t in rest || t == last;
      forall t <- rest ensures t.id != last.id {
        var i :| 0 <= i < |rest| && rest[i] == t;
        assert teams[i] == t;
      }
    }
  }

  lemma OneMoreWeek(from: int, weeks: nat, start: int)
    ensures OnWeek(from, weeks + 1, start) <==> OnWeek(from, weeks, start) || start == from + weeks * WEEK
    ensures !(OnWeek(from, weeks, start) && start == from + weeks * WEEK)
  {
    if (start - from) % WEEK == 0 {
      assert start - from == (start - from) / WEEK * WEEK;
    }
  }

  lemma {:induction false} GrandGains(teams: seq<Team>, front: seq<Allocation>, a: Allocation, from: int, weeks: nat)
    requires DistinctTeams(teams)
    ensures Grand(teams, front + [a], from, weeks) == Grand(teams, front, from, weeks)
      + if Listed(teams, a.teamId) && OnWeek(from, weeks, a.weekStart) then a.estimatePoints else 0
    decreases weeks
  {
    if weeks > 0 {
      GrandGains(teams, front, a, from, weeks - 1);
      WeekGains(teams, front, a, from + (weeks - 1) * WEEK);
      OneMoreWeek(from, weeks - 1, a.weekStart);
    }
  }

  lemma {:induction false} GrandOfNone(teams: seq<Team>, from: int, weeks: nat)
    ensures Grand(teams, [], from, weeks) == 0
    decreases weeks
  {
    if weeks > 0 {
      GrandOfNone(teams, from, weeks - 1);
      NoneAllocated(teams, from + (weeks - 1) * WEEK);
    }
  }

  lemma {:induction false} NoneAllocated(teams: seq<Team>, start: int)
    ensures TotalAllocated(teams, [], start) == 0
    decreases |teams|
  {
    if teams != [] { NoneAllocated(teams[..|teams| - 1], start); }
  }

  lemma {:induction false} GrandIsAccounted(teams: seq<Team>, allocations: seq<Allocation>, from: int, weeks: nat)
    requires DistinctTeams(teams)
    ensures Grand(teams, allocations, from, weeks) == Accounted(teams, allocations, from, weeks)
    decreases |allocations|
  {
    if allocations == [] {
      GrandOfNone(teams, from, weeks);
    } else {
      var front, a := allocations[..|allocations| - 1], allocations[|allocations| - 1];
      assert allocations == front + [a];
      GrandIsAccounted(teams, front, from, weeks);
      GrandGains(teams, front, a, from, weeks);
    }
  }

  function Points(allocations: seq<Allocation>): int {
    if allocations == [] then 0
    else Points(allocations[..|allocations| - 1]) + allocations[|allocations| - 1].estimatePoints
  }

  /** Nothing is lost: allocations of listed teams that begin on Mondays of the range are all in the
      report when it begins on a Monday. */
  lemma {:induction false} AllPointsReported(teams: seq<Team>, allocations: seq<Allocation>, from: int, weeks: nat)
    requires MondayMidnight(from)
    requires forall a <- allocations ::
      Listed(teams, a.teamId) && MondayMidnight(a.weekStart) && from <= a.weekStart < from + weeks * WEEK
    ensures Accounted(teams, allocations, from, weeks) == Points(allocations)
    decreases |allocations|
  {
    if allocations != [] {
      var front, a := allocations[..|allocations| - 1], allocations[|allocations| - 1];
      assert a in allocations && forall x <- front :: x in allocations;
      AllPointsReported(teams, front, from, weeks);
      MondaysAreWeeksApart(from, a.weekStart);
    }
  }

  // ---- Saving allocations

  predicate InSlot(r: Allocation, planId: Id, issueId: Id, weekStart: int) {
    r.planId == planId && r.issueId == issueId && r.weekStart == weekStart
  }

  /** The row of a plan, issue and week, or -1. */
  function Slot(rows: seq<Allocation>, planId: Id, issueId: Id, weekStart: int): (i: int)
    ensures -1 <= i < |rows|
    ensures 0 <= i ==> InSlot(rows[i], planId, issueId, weekStart)
    ensures i == -1 ==> forall r <- rows :: !InSlot(r, planId, issueId, weekStart)
  {
    if rows == [] then -1
    else if InSlot(rows[|rows| - 1], planId, issueId, weekStart) then |rows| - 1
    else
      assert forall r <- rows :: r in rows[..|rows| - 1] || r == rows[|rows| - 1];
      Slot(rows[..|rows| - 1], planId, issueId, weekStart)
  }

  /** `date` is any instant of the week meant. */
  datatype Save = Save(planId: Id, issueId: Id, teamId: Id, date: int, points: int)

  function Saved(rows: seq<Allocation>, s: Save): seq<Allocation> {
    var i := Slot(rows, s.planId, s.issueId, WeekKey(s.date));
    if i >= 0 then rows[i := rows[i].(teamId := s.teamId, estimatePoints := s.points, version := rows[i].version + 1)]
    else rows + [Allocation(s.planId, s.issueId, s.teamId, WeekKey(s.date), s.points, 1)]
  }

  class AllocationStore {
    var rows: seq<Allocation>

    constructor ()
      ensures rows == []
    {
      rows := [];
    }

    method Allocate(s: Save)
      modifies this
      ensures rows == Saved(old(rows), s)
      ensures WellKept(old(rows)) ==> WellKept(rows)
      ensures WellKept(old(rows)) ==> forall planId, issueId, weekStart ::
        Shown(rows, planId, issueId, weekStart)
        == if InWeekOf(s, planId, issueId, weekStart) then Some((s.teamId, s.points))
           else Shown(old(rows), planId, issueId, weekStart)
    {
      if WellKept(rows) {
        forall planId, issueId, weekStart { SaveWritesItsSlot(rows, s, planId, issueId, weekStart); }
        SaveKeepsRows(rows, s);
      }
      var weekStart := WeekKey(s.date);
      var i := Slot(rows, s.planId, s.issueId, weekStart);
      if i >= 0 {
        rows := rows[i := rows[i].(teamId := s.teamId, estimatePoints := s.points, version := rows[i].version + 1)];
      } else {
        rows := rows + [Allocation(s.planId, s.issueId, s.teamId, weekStart, s.points, 1)];
      }
    }
  }

  /** At most one row per plan, issue and week, and every row on a Monday. */
  predicate WellKept(rows: seq<Allocation>) {
    && (forall r <- rows :: MondayMidnight(r.weekStart))
    && forall i, j :: 0 <= i < j < |rows| ==> !InSlot(rows[i], rows[j].planId, rows[j].issueId, rows[j].weekStart)
  }

  /** Team and points on record for a plan, issue and week. */
  function Shown(rows: seq<Allocation>, planId: Id, issueId: Id, weekStart: int): Option<(Id, int)> {
    var i := Slot(rows, planId, issueId, weekStart);
    if i < 0 then None else Some((rows[i].teamId, rows[i].estimatePoints))
  }

  predicate InWeekOf(s: Save, planId: Id, issueId: Id, weekStart: int) {
    && s.planId == planId && s.issueId == issueId
    && weekStart <= s.date < weekStart + WEEK && MondayMidnight(weekStart)
  }

  lemma SaveKeepsRows(rows: seq<Allocation>, s: Save)
    requires WellKept(rows)
    ensures WellKept(Saved(rows, s))
  {
    var after := Saved(rows, s);
    forall r <- after ensures MondayMidnight(r.weekStart) {
      var j :| 0 <= j < |after| && after[j] == r;
      if j < |rows| { assert rows[j] in rows; }
    }
    forall i, j | 0 <= i < j < |after|
      ensures !InSlot(after[i], after[j].planId, after[j].issueId, after[j].weekStart)
    {
      if j < |rows| {
        assert !InSlot(rows[i], rows[j].planId, rows[j].issueId, rows[j].weekStart);
      } else {
        assert rows[i] in rows;
      }
    }
  }

  /** A save writes its own slot, and leaves every other slot as it was. */
  lemma SaveWritesItsSlot(rows: seq<Allocation>, s: Save, planId: Id, issueId: Id, weekStart: int)
    requires WellKept(rows)
    ensures Shown(Saved(rows, s), planId, issueId, weekStart)
      == if InWeekOf(s, planId, issueId, weekStart) then Some((s.teamId, s.points))
         else Shown(rows, planId, issueId, weekStart)
  {
    WeekKeyIsUnique(s.date, weekStart);
    SaveKeepsRows(rows, s);
    var at := SavedAt(rows, s);
    SlotIsFirst(rows, planId, issueId, weekStart);
    SlotIsFirst(Saved(rows, s), planId, issueId, weekStart);
  }

  /** Where the save writes: the other rows stay. */
  lemma SavedAt(rows: seq<Allocation>, s: Save) returns (at: nat)
    ensures var after := Saved(rows, s);
      && at < |after| && at <= |rows| <= |after| <= |rows| + 1 && (at == |rows| <==> |after| == |rows| + 1)
      && InSlot(after[at], s.planId, s.issueId, WeekKey(s.date))
      && after[at].teamId == s.teamId && after[at].estimatePoints == s.points
      && (at < |rows| ==> InSlot(rows[at], s.planId, s.issueId, WeekKey(s.date)))
      && forall j :: 0 <= j < |rows| && j != at ==> after[j] == rows[j]
  {
    var k := Slot(rows, s.planId, s.issueId, WeekKey(s.date));
    at := if k >= 0 then k else |rows|;
  }

  /** In a well-kept table the slot of a row is where the row is. */
  lemma SlotIsFirst(rows: seq<Allocation>, planId: Id, issueId: Id, weekStart: int)
    requires WellKept(rows)
    ensures forall j :: 0 <= j < |rows| && InSlot(rows[j], planId, issueId, weekStart) ==>
      j == Slot(rows, planId, issueId, weekStart)
  {
    var i := Slot(rows, planId, issueId, weekStart);
    forall j | 0 <= j < |rows| && j != i ensures !InSlot(rows[j], planId, issueId, weekStart) {
      if i < 0 { assert rows[j] in rows; }
      else if j < i { assert !InSlot(rows[j], rows[i].planId, rows[i].issueId, rows[i].weekStart); }
      else { assert !InSlot(rows[i], rows[j].planId, rows[j].issueId, rows[j].weekStart); }
    }
  }

  function AfterSaves(rows: seq<Allocation>, saves: seq<Save>): seq<Allocation>
    decreases |saves|
  {
    if saves == [] then rows else AfterSaves(Saved(rows, saves[0]), saves[1..])
  }

  lemma {:induction false} SavesKeepRows(rows: seq<Allocation>, saves: seq<Save>)
    requires WellKept(rows)
    ensures WellKept(AfterSaves(rows, saves))
    decreases |saves|
  {
    if saves != [] {
      SaveKeepsRows(rows, saves[0]);
      SavesKeepRows(Saved(rows, saves[0]), saves[1..]);
    }
  }

  /** Whatever was saved, on whatever dates: a report over a range of weeks that covers the rows, by
      the teams they name, accounts for every point. */
  lemma SavedPointsAreReported(saves: seq<Save>, teams: seq<Team>, date: int, weeks: nat)
    requires forall a <- AfterSaves([], saves) ::
      Listed(teams, a.teamId) && WeekKey(date) <= a.weekStart < WeekKey(date) + weeks * WEEK
    ensures Accounted(teams, AfterSaves([], saves), WeekKey(date), weeks) == Points(AfterSaves([], saves))
  {
    SavesKeepRows([], saves);
    AllPointsReported(teams, AfterSaves([], saves), WeekKey(date), weeks);
  }
}
