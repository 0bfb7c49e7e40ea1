/** What the capacity report counts, member by member, holiday by holiday, allocation by allocation. */
module CapacityLaws {
  import opened CapacityPlanning
  import opened Wrappers

  const SEVEN_DAYS := 604_800_000

  /** Weeks begin a whole number of weeks from the midnight of 5 January 1970, four days into the epoch. */
  lemma MondayIff(instant: int)
    ensures MondayMidnight(instant) <==> (instant - 345_600_000) % SEVEN_DAYS == 0
  {
    var first := 4 * DAY;
    assert MondayMidnight(first);
    if MondayMidnight(instant) { MondaysAreWeeksApart(first, instant); }
    if (instant - first) % WEEK == 0 {
      var weeks := (instant - first) / WEEK;
      assert instant == (weeks * 7 + 4) * DAY;
      assert instant / DAY == weeks * 7 + 4;
    }
  }

  // ---- One team in one week

  /** On the team at some time of the week: it begins before the week is over and does not end before it. */
  ghost predicate OnTeam(m: Member, start: int) {
    m.startsAt < start + SEVEN_DAYS && match m.endsAt case Some(end) => start <= end case None => true
  }

  /** The first entry for the member and the week. */
  ghost predicate FirstEntry(rows: seq<Availability>, userId: Id, start: int, k: nat) {
    && k < |rows| && rows[k].userId == userId && rows[k].weekStart == start
    && forall j :: 0 <= j < k ==> rows[j].userId != userId || rows[j].weekStart != start
  }

  lemma {:induction false} AvailableMeans(rows: seq<Availability>, userId: Id, start: int)
    ensures forall k: nat :: FirstEntry(rows, userId, start, k) ==>
      Available(rows, userId, start) == Some(rows[k].capacityPoints)
    ensures Available(rows, userId, start).Some? ==> exists k: nat :: FirstEntry(rows, userId, start, k)
    decreases |rows|
  {
    if rows != [] {
      var rest := rows[1..];
      AvailableMeans(rest, userId, start);
      if rows[0].userId == userId && rows[0].weekStart == start {
        assert FirstEntry(rows, userId, start, 0);
      } else {
        forall k: nat ensures FirstEntry(rest, userId, start, k) <==> FirstEntry(rows, userId, start, k + 1) {
          FirstEntryOn(rows, userId, start, k);
        }
        forall k: nat | FirstEntry(rows, userId, start, k)
          ensures Available(rows, userId, start) == Some(rows[k].capacityPoints)
        {
          FirstEntryOn(rows, userId, start, k - 1);
        }
      }
    }
  }

  lemma FirstEntryOn(rows: seq<Availability>, userId: Id, start: int, k: nat)
    requires rows != [] && (rows[0].userId != userId || rows[0].weekStart != start)
    ensures FirstEntry(rows[1..], userId, start, k) <==> FirstEntry(rows, userId, start, k + 1)
  {
    if FirstEntry(rows[1..], userId, start, k) {
      forall j | 0 <= j < k + 1 ensures rows[j].userId != userId || rows[j].weekStart != start {
        if j > 0 { assert rows[j] == rows[1..][j - 1]; }
      }
    }
  }

  /** What a member brings: the entry for the week, else the member's own points, else the team's. */
  ghost predicate Brings(team: Team, m: Member, start: int, points: int) {
    if exists k: nat :: FirstEntry(team.availability, m.userId, start, k)
    then exists k: nat :: FirstEntry(team.availability, m.userId, start, k)
                          && points == team.availability[k].capacityPoints
    else match m.weeklyCapacityPoints
         case Some(own) => points == own
         case None => points == DefaultCapacity(team, start)
  }

  /** The change in force: the latest effective by then; of simultaneous ones the first. */
  ghost predicate FirstInForce(changes: seq<Change>, start: int, k: nat) {
    && k < |changes| && changes[k].effectiveFrom <= start
    && forall j :: 0 <= j < |changes| && changes[j].effectiveFrom <= start ==>
      changes[j].effectiveFrom < changes[k].effectiveFrom
      || (changes[j].effectiveFrom == changes[k].effectiveFrom && k <= j)
  }

  lemma {:induction false} PlaceHead(sorted: seq<Change>, c: Change)
    requires Descending(sorted)
    ensures |Place(sorted, c)| > 0
    ensures Place(sorted, c)[0] ==
      if sorted == [] || sorted[0].effectiveFrom < c.effectiveFrom then c else sorted[0]
    decreases |sorted|
  {
    if sorted != [] { PlaceHead(sorted[..|sorted| - 1], c); }
  }

  lemma {:induction false} DefaultOf(changes: seq<Change>, start: int) returns (k: Option<nat>)
    ensures k.None? ==> LatestFirst(UpTo(changes, start)) == [] && forall c <- changes :: c.effectiveFrom > start
    ensures k.Some? ==> FirstInForce(changes, start, k.value)
    ensures k.Some? ==>
      LatestFirst(UpTo(changes, start)) != [] && LatestFirst(UpTo(changes, start))[0] == changes[k.value]
    decreases |changes|
  {
    k := None;
    if changes != [] {
      var n := |changes| - 1;
      var front, last := changes[..n], changes[n];
      k := DefaultOf(front, start);
      HeadStep(changes, start);
      var later := last.effectiveFrom <= start && (k.None? || front[k.value].effectiveFrom < last.effectiveFrom);
      ForceStep(changes, start, k, later);
      if later { k := Some(n); }
    }
  }

  lemma HeadStep(changes: seq<Change>, start: int)
    requires changes != []
    ensures var front, last := changes[..|changes| - 1], changes[|changes| - 1];
      var a, b := LatestFirst(UpTo(front, start)), LatestFirst(UpTo(changes, start));
      if last.effectiveFrom > start then b == a
      else b != [] && b[0] == if a == [] || a[0].effectiveFrom < last.effectiveFrom then last else a[0]
  {
    var front, last := changes[..|changes| - 1], changes[|changes| - 1];
    var found := UpTo(front, start);
    if last.effectiveFrom <= start {
      assert (found + [last])[..|found|] == found;
      SortSorts(found);
      PlaceHead(LatestFirst(found), last);
    } else {
      assert found + [] == found;
    }
  }

  lemma ForceStep(changes: seq<Change>, start: int, k: Option<nat>, later: bool)
    requires changes != []
    requires k.None? ==> forall c <- changes[..|changes| - 1] :: c.effectiveFrom > start
    requires k.Some? ==> FirstInForce(changes[..|changes| - 1], start, k.value)
    requires var last := changes[|changes| - 1];
      later == (last.effectiveFrom <= start && (k.None? || changes[k.value].effectiveFrom < last.effectiveFrom))
    ensures later ==> FirstInForce(changes, start, |changes| - 1)
    ensures !later && k.Some? ==> FirstInForce(changes, start, k.value)
    ensures !later && k.None? ==> forall c <- changes :: c.effectiveFrom > start
  {
    var front := changes[..|changes| - 1];
    forall j | 0 <= j < |front| ensures changes[j] == front[j] && front[j] in front {}
  }

  /** Without an entry and points of their own, members bring what the change in force says. */
  lemma DefaultMeans(team: Team, start: int)
    ensures forall k: nat :: FirstInForce(team.capacities, start, k) ==>
      DefaultCapacity(team, start) == team.capacities[k].weeklyCapacityPoints
    ensures (forall c <- team.capacities :: start < c.effectiveFrom) ==> DefaultCapacity(team, start) == 0
  {
    var d := DefaultOf(team.capacities, start);
    forall k: nat | FirstInForce(team.capacities, start, k) ensures d == Some(k) {
      assert team.capacities[k] in team.capacities;
    }
    if d.Some? { assert team.capacities[d.value] in team.capacities; }
  }

  lemma {:induction false} MembersPiecewise(team: Team, a: seq<Member>, b: seq<Member>, start: int)
    ensures MembersPoints(team, a + b, start) == MembersPoints(team, a, start) + MembersPoints(team, b, start)
    decreases |b|
  {
    if b == [] {
      assert a + b == a;
    } else {
      assert (a + b)[..|a + b| - 1] == a + b[..|b| - 1];
      MembersPiecewise(team, a, b[..|b| - 1], start);
    }
  }

  lemma MembersOfOne(team: Team, m: Member, start: int) returns (points: int)
    ensures Brings(team, m, start, points)
    ensures MembersPoints(team, [m], start) == if OnTeam(m, start) then points else 0
  {
    AvailableMeans(team.availability, m.userId, start);
    points := MemberPoints(team, m, start);
    assert [m][..0] == [];
  }

  lemma {:induction false} HolidaysPiecewise(a: seq<Holiday>, b: seq<Holiday>, start: int)
    ensures HolidayPoints(a + b, start) == HolidayPoints(a, start) + HolidayPoints(b, start)
    decreases |b|
  {
    if b == [] {
      assert a + b == a;
    } else {
      assert (a + b)[..|a + b| - 1] == a + b[..|b| - 1];
      HolidaysPiecewise(a, b[..|b| - 1], start);
    }
  }

  lemma HolidayOfOne(h: Holiday, start: int)
    ensures HolidayPoints([h], start)
      == if start <= h.date && h.date < start + SEVEN_DAYS then h.capacityReductionPoints else 0
  {
    assert [h][..0] == [];
  }

  lemma {:induction false} AllocatedPiecewise(a: seq<Allocation>, b: seq<Allocation>, teamId: Id, start: int)
    ensures Allocated(a + b, teamId, start) == Allocated(a, teamId, start) + Allocated(b, teamId, start)
    decreases |b|
  {
    if b == [] {
      assert a + b == a;
    } else {
      assert (a + b)[..|a + b| - 1] == a + b[..|b| - 1];
      AllocatedPiecewise(a, b[..|b| - 1], teamId, start);
    }
  }

  lemma AllocatedOfOne(a: Allocation, teamId: Id, start: int)
    ensures Allocated([a], teamId, start) == if a.weekStart == start && a.teamId == teamId then a.estimatePoints else 0
  {
    assert [a][..0] == [];
  }

  // ---- One week of the report

  /** What the members bring less what the holidays take, but never less than nothing. */
  ghost predicate Capable(team: Team, start: int, capacity: int) {
    var net := MembersPoints(team, team.members, start) - HolidayPoints(team.holidays, start);
    capacity >= 0 && capacity >= net && (capacity == 0 || capacity == net)
  }

  /** The total of the figures of the teams listed. */
  ghost predicate Totals(w: Week, capacities: seq<int>, planned: seq<int>) {
    && |w.teams| == |capacities| == |planned|
    && (forall j :: 0 <= j < |w.teams| ==> w.teams[j].capacity == capacities[j])
    && (forall j :: 0 <= j < |w.teams| ==> w.teams[j].allocatedPoints == planned[j])
    && w.totalCapacity == Sum(capacities) && w.totalAllocated == Sum(planned)
  }

  function Sum(xs: seq<int>): int {
    if xs == [] then 0 else Sum(xs[..|xs| - 1]) + xs[|xs| - 1]
  }

  /** Each team has its capacity, what is allocated to it, and the difference; the totals are the sums. */
  lemma ReportMeans(w: Week, teams: seq<Team>, allocations: seq<Allocation>, start: int)
    returns (capacities: seq<int>, planned: seq<int>)
    requires Reports(w, teams, allocations, start)
    ensures w.weekStart == start && Totals(w, capacities, planned) && |w.teams| == |teams|
    ensures forall j :: 0 <= j < |teams| ==>
      && w.teams[j].id == teams[j].id && Capable(teams[j], start, w.teams[j].capacity)
      && w.teams[j].allocatedPoints == Allocated(allocations, teams[j].id, start)
      && w.teams[j].remaining == w.teams[j].capacity - w.teams[j].allocatedPoints
      && (w.teams[j].overAllocated <==> w.teams[j].remaining < 0)
  {
    capacities := seq(|teams|, j requires 0 <= j < |teams| => Capacity(teams[j], start));
    planned := seq(|teams|, j requires 0 <= j < |teams| => Allocated(allocations, teams[j].id, start));
    TotalsAreSums(teams, allocations, start, capacities, planned);
  }

  lemma {:induction false} TotalsAreSums(
    teams: seq<Team>, allocations: seq<Allocation>, start: int, capacities: seq<int>, planned: seq<int>)
    requires |capacities| == |planned| == |teams|
    requires forall j :: 0 <= j < |teams| ==>
      capacities[j] == Capacity(teams[j], start) && planned[j] == Allocated(allocations, teams[j].id, start)
    ensures TotalCapacity(teams, start) == Sum(capacities)
    ensures TotalAllocated(teams, allocations, start) == Sum(planned)
    decreases |teams|
  {
    if teams != [] {
      var n := |teams| - 1;
      TotalsAreSums(teams[..n], allocations, start, capacities[..n], planned[..n]);
    }
  }

  // ---- Saving

  /** A save writes team and points of the row of its week at the row's next version, or adds a first
      version of it, and leaves the other rows as they are. */
  lemma SavedMeans(rows: seq<Allocation>, s: Save, k: nat)
    requires WellKept(rows)
    ensures var after, monday := Saved(rows, s), WeekKey(s.date);
      if k < |rows| && InSlot(rows[k], s.planId, s.issueId, monday) then
        && |after| == |rows| && (forall j :: 0 <= j < |rows| && j != k ==> after[j] == rows[j])
        && after[k] == Allocation(s.planId, s.issueId, s.teamId, monday, s.points, rows[k].version + 1)
      else (forall r <- rows :: !InSlot(r, s.planId, s.issueId, monday)) ==>
        && |after| == |rows| + 1 && after[..|rows|] == rows
        && after[|rows|] == Allocation(s.planId, s.issueId, s.teamId, monday, s.points, 1)
  {
    SlotIsFirst(rows, s.planId, s.issueId, WeekKey(s.date));
    var i := Slot(rows, s.planId, s.issueId, WeekKey(s.date));
    if i >= 0 { assert rows[i] in rows; }
  }
}
