/** Delivery reports over issue histories: days of a range, cumulative flow, sprint burndown.
    Instants are milliseconds since the epoch. */
module DeliveryReports {
  import opened Wrappers

  type Id = int

  const DAY := 86_400_000

  datatype Category = Todo | InProgress | Done
  datatype Event = SprintAdded | SprintRemoved | OtherEvent
  datatype History = History(issueId: Id, event: Event, category: Category, estimate: Option<int>, occurredAt: int)

  // ---- Days

  function DayOf(instant: int): int {
    instant / DAY
  }

  /** The last millisecond of every day from one instant's day to another's. */
  method UtcDays(from: int, to: int) returns (days: seq<int>)
    ensures |days| == if DayOf(from) <= DayOf(to) then DayOf(to) - DayOf(from) + 1 else 0
    ensures forall i :: 0 <= i < |days| ==>
      DayOf(days[i]) == DayOf(from) + i && DayOf(days[i] + 1) == DayOf(from) + i + 1
  {
    days := [];
    var value := DayOf(from) * DAY;
    while value <= DayOf(to) * DAY
      invariant value == (DayOf(from) + |days|) * DAY
      invariant |days| == 0 || DayOf(from) + |days| - 1 <= DayOf(to)
      invariant forall i :: 0 <= i < |days| ==>
        DayOf(days[i]) == DayOf(from) + i && DayOf(days[i] + 1) == DayOf(from) + i + 1
      decreases DayOf(to) * DAY - value
    {
      days := days + [value + (DAY - 1)];
      value := value + DAY;
    }
  }

  // ---- The definition: an issue counts by its latest event

  /** The issue's latest event at or before the instant; of simultaneous ones, the last in the input. */
  function Latest(histories: seq<History>, id: Id, day: int): Option<History> {
    if histories == [] then None
    else
      var best, h := Latest(histories[..|histories| - 1], id, day), histories[|histories| - 1];
      if h.issueId == id && h.occurredAt <= day && (best.None? || best.value.occurredAt <= h.occurredAt)
      then Some(h)
      else best
  }

  predicate Eligible(h: History, id: Id, day: int) {
    h.issueId == id && h.occurredAt <= day
  }

  lemma {:induction false} LatestMeans(histories: seq<History>, id: Id, day: int)
    ensures var l := Latest(histories, id, day);
      && (l.None? <==> forall h <- histories :: !Eligible(h, id, day))
      && (l.Some? ==> l.value in histories && Eligible(l.value, id, day))
      && (l.Some? ==> forall h <- histories :: Eligible(h, id, day) ==> h.occurredAt <= l.value.occurredAt)
    decreases |histories|
  {
    if histories != [] {
      var front, last := histories[..|histories| - 1], histories[|histories| - 1];
      LatestMeans(front, id, day);
      assert last in histories && forall h <- front :: h in histories;
      assert forall h <- histories :: h in front || h == last;
    }
  }

  function IdsOf(histories: seq<History>): set<Id> {
    set h <- histories :: h.issueId
  }

  predicate InState(histories: seq<History>, id: Id, day: int, c: Category) {
    Latest(histories, id, day).Some? && Latest(histories, id, day).value.category == c
  }

  /** The issues of `ids` whose latest event by the instant put them in the category. */
  function StateSet(histories: seq<History>, ids: set<Id>, day: int, c: Category): set<Id> {
    set id <- ids | InState(histories, id, day, c)
  }

  datatype Point = Point(day: int, todo: nat, inProgress: nat, done: nat, total: nat)

  function FlowAt(histories: seq<History>, day: int): Point {
    var ids := IdsOf(histories);
    Point(day, |StateSet(histories, ids, day, Todo)|, |StateSet(histories, ids, day, InProgress)|,
          |StateSet(histories, ids, day, Done)|,
          |StateSet(histories, ids, day, Todo)| + |StateSet(histories, ids, day, InProgress)|
          + |StateSet(histories, ids, day, Done)|)
  }

  // ---- Sorting by time

  predicate Sorted(s: seq<History>) {
    forall i, j :: 0 <= i < j < |s| ==> s[i].occurredAt <= s[j].occurredAt
  }

  /** Puts `h` behind everything that is not later. */
  function Insert(s: seq<History>, h: History): seq<History> {
    if s == [] then [h]
    else if s[|s| - 1].occurredAt <= h.occurredAt then s + [h]
    else Insert(s[..|s| - 1], h) + [s[|s| - 1]]
  }

  lemma {:induction false} InsertKeepsElements(s: seq<History>, h: History)
    ensures multiset(Insert(s, h)) == multiset(s) + multiset{h}
    decreases |s|
  {
    if s != [] {
      var front, last := s[..|s| - 1], s[|s| - 1];
      assert s == front + [last];
      InsertKeepsElements(front, h);
    }
  }

  lemma {:induction false} InsertSorts(s: seq<History>, h: History)
    requires Sorted(s)
    ensures Sorted(Insert(s, h))
    decreases |s|
  {
    if s != [] && s[|s| - 1].occurredAt > h.occurredAt {
      var front, last := s[..|s| - 1], s[|s| - 1];
      InsertSorts(front, h);
      InsertKeepsElements(front, h);
      var r := Insert(front, h);
      forall x <- r ensures x.occurredAt <= last.occurredAt {
        assert x in multiset(r);
        assert x in multiset(front) ==> x in front;
      }
    }
  }

  function StableSort(s: seq<History>): seq<History> {
    if s == [] then [] else Insert(StableSort(s[..|s| - 1]), s[|s| - 1])
  }

  lemma {:induction false} SortSorts(s: seq<History>)
    ensures Sorted(StableSort(s)) && multiset(StableSort(s)) == multiset(s)
    decreases |s|
  {
    if s != [] {
      var front, last := s[..|s| - 1], s[|s| - 1];
      assert s == front + [last];
      SortSorts(front);
      InsertSorts(StableSort(front), last);
      InsertKeepsElements(StableSort(front), last);
    }
  }

  function AtTime(s: seq<History>, t: int): seq<History> {
    if s == [] then []
    else AtTime(s[..|s| - 1], t) + if s[|s| - 1].occurredAt == t then [s[|s| - 1]] else []
  }

  lemma {:induction false} NoneAtTime(s: seq<History>, t: int)
    requires forall h <- s :: h.occurredAt != t
    ensures AtTime(s, t) == []
    decreases |s|
  {
    if s != [] {
      assert forall h <- s[..|s| - 1] :: h in s;
      NoneAtTime(s[..|s| - 1], t);
    }
  }

  lemma {:induction false} InsertIsStable(s: seq<History>, h: History, t: int)
    requires Sorted(s)
    ensures AtTime(Insert(s, h), t) == AtTime(s + [h], t)
    decreases |s|
  {
    assert (s + [h])[..|s|] == s;
    if s != [] {
      var front, last := s[..|s| - 1], s[|s| - 1];
      if last.occurredAt > h.occurredAt {
        InsertIsStable(front, h, t);
        var r := Insert(front, h);
        assert (r + [last])[..|r|] == r && (front + [h])[..|front|] == front;
        if last.occurredAt == t && h.occurredAt == t { assert false; }
      }
    }
  }

  /** Sorting keeps simultaneous events in their input order. */
  lemma {:induction false} SortIsStable(s: seq<History>, t: int)
    ensures AtTime(StableSort(s), t) == AtTime(s, t)
    decreases |s|
  {
    if s != [] {
      var front, last := s[..|s| - 1], s[|s| - 1];
      SortIsStable(front, t);
      SortSorts(front);
      var r := StableSort(front);
      InsertIsStable(r, last, t);
      assert (r + [last])[..|r|] == r;
    }
  }

  // ---- The program's way: group, sort, keep what is not later, take the last

  function Of(histories: seq<History>, id: Id): (r: seq<History>)
    ensures forall h <- r :: h.issueId == id
  {
    if histories == [] then []
    else
      var front, h := Of(histories[..|histories| - 1], id), histories[|histories| - 1];
      if h.issueId == id then front + [h] else front
  }

  /** The last element that is not later than the instant. */
  function LastBy(s: seq<History>, day: int): Option<History> {
    if s == [] then None
    else if s[|s| - 1].occurredAt <= day then Some(s[|s| - 1])
    else LastBy(s[..|s| - 1], day)
  }

  lemma {:induction false} LastByInsert(s: seq<History>, h: History, day: int)
    requires Sorted(s)
    ensures var best := LastBy(s, day);
      LastBy(Insert(s, h), day) ==
        if h.occurredAt <= day && (best.None? || best.value.occurredAt <= h.occurredAt) then Some(h) else best
    decreases |s|
  {
    if s == [] {
    } else if s[|s| - 1].occurredAt <= h.occurredAt {
      assert (s + [h])[..|s|] == s;
      LastByWithin(s, day);
    } else {
      var front := s[..|s| - 1];
      var r := Insert(front, h);
      assert (r + [s[|s| - 1]])[..|r|] == r;
      LastByInsert(front, h, day);
    }
  }

  lemma {:induction false} LastByWithin(s: seq<History>, day: int)
    ensures LastBy(s, day).Some? ==> LastBy(s, day).value in s
    decreases |s|
  {
    if s != [] { LastByWithin(s[..|s| - 1], day); }
  }

  /** Grouping, sorting and taking the last event that is not later finds the latest event. */
  lemma {:induction false} SortedLastIsLatest(histories: seq<History>, id: Id, day: int)
    ensures LastBy(StableSort(Of(histories, id)), day) == Latest(histories, id, day)
    decreases |histories|
  {
    if histories != [] {
      var front, h := histories[..|histories| - 1], histories[|histories| - 1];
      SortedLastIsLatest(front, id, day);
      if h.issueId == id {
        var group := Of(front, id);
        assert (group + [h])[..|group|] == group;
        SortSorts(group);
        LastByInsert(StableSort(group), h, day);
      }
    }
  }

  predicate Unique(order: seq<Id>) {
    forall i, j :: 0 <= i < j < |order| ==> order[i] != order[j]
  }

  function Elements(order: seq<Id>): set<Id> {
    set id <- order
  }

  /** Counts, for each day of the range, the issues in each category. */
  method CumulativeFlow(histories: seq<History>, from: int, to: int) returns (points: seq<Point>)
    ensures |points| == if DayOf(from) <= DayOf(to) then DayOf(to) - DayOf(from) + 1 else 0
    ensures forall i :: 0 <= i < |points| ==>
      DayOf(points[i].day) == DayOf(from) + i && DayOf(points[i].day + 1) == DayOf(from) + i + 1
    ensures forall i :: 0 <= i < |points| ==> points[i] == FlowAt(histories, points[i].day)
  {
    var order, groups := Group(histories);
    var byIssue := SortGroups(histories, order, groups);
    var days := UtcDays(from, to);
    points := [];
    for i := 0 to |days|
      invariant |points| == i
      invariant forall k :: 0 <= k < i ==> points[k] == FlowAt(histories, days[k])
    {
      var point := CountDay(histories, order, byIssue, days[i]);
      points := points + [point];
    }
  }

  /** The histories of each issue in input order, and the issues in order of appearance. */
  method Group(histories: seq<History>) returns (order: seq<Id>, byIssue: map<Id, seq<History>>)
    ensures Unique(order) && Elements(order) == IdsOf(histories)
    ensures forall k :: 0 <= k < |order| ==> Holds(byIssue, order[k], Of(histories, order[k]))
  {
    order, byIssue := [], map[];
    for i := 0 to |histories|
      invariant Unique(order) && Elements(order) == IdsOf(histories[..i]) == byIssue.Keys
      invariant forall id <- byIssue :: byIssue[id] == Of(histories[..i], id)
    {
      var item := histories[i];
      assert histories[..i + 1][..i] == histories[..i];
      AbsentIsEmpty(histories[..i], item.issueId);
      assert IdsOf(histories[..i + 1]) == IdsOf(histories[..i]) + {item.issueId} by {
        assert forall h <- histories[..i + 1] :: h in histories[..i] || h == item;
        assert forall h <- histories[..i] :: h in histories[..i + 1];
        assert item in histories[..i + 1];
      }
      if item.issueId in byIssue {
        byIssue := byIssue[item.issueId := byIssue[item.issueId] + [item]];
      } else {
        assert item.issueId !in Elements(order);
        order := order + [item.issueId];
        byIssue := byIssue[item.issueId := [item]];
      }
    }
    assert histories[..|histories|] == histories;
    assert forall k :: 0 <= k < |order| ==> order[k] in Elements(order);
  }

  predicate Holds(groups: map<Id, seq<History>>, id: Id, events: seq<History>) {
    id in groups && groups[id] == events
  }

  method SortGroups(
    histories: seq<History>, order: seq<Id>, groups: map<Id, seq<History>>)
    returns (byIssue: map<Id, seq<History>>)
    requires Unique(order) && forall k :: 0 <= k < |order| ==> Holds(groups, order[k], Of(histories, order[k]))
    ensures byIssue.Keys == groups.Keys
    ensures forall k :: 0 <= k < |order| ==> Holds(byIssue, order[k], StableSort(Of(histories, order[k])))
  {
    byIssue := groups;
    for i := 0 to |order|
      invariant byIssue.Keys == groups.Keys
      invariant forall k :: 0 <= k < i ==> Holds(byIssue, order[k], StableSort(Of(histories, order[k])))
      invariant forall k :: i <= k < |order| ==> Holds(byIssue, order[k], Of(histories, order[k]))
    {
      assert Holds(byIssue, order[i], Of(histories, order[i]));
      byIssue := byIssue[order[i] := StableSort(byIssue[order[i]])];
    }
  }

  lemma {:induction false} AbsentIsEmpty(histories: seq<History>, id: Id)
    ensures id !in IdsOf(histories) ==> Of(histories, id) == []
    decreases |histories|
  {
    if histories != [] {
      assert forall h <- histories[..|histories| - 1] :: h in histories;
      AbsentIsEmpty(histories[..|histories| - 1], id);
      assert histories[|histories| - 1] in histories;
    }
  }

  method CountDay(histories: seq<History>, order: seq<Id>, byIssue: map<Id, seq<History>>, day: int) returns (p: Point)
    requires Unique(order) && Elements(order) == IdsOf(histories)
    requires forall k :: 0 <= k < |order| ==> Holds(byIssue, order[k], StableSort(Of(histories, order[k])))
    ensures p == FlowAt(histories, day)
  {
    var todo, inProgress, done := 0, 0, 0;
    for j := 0 to |order|
      invariant todo == |StateSet(histories, Elements(order[..j]), day, Todo)|
      invariant inProgress == |StateSet(histories, Elements(order[..j]), day, InProgress)|
      invariant done == |StateSet(histories, Elements(order[..j]), day, Done)|
    {
      assert Holds(byIssue, order[j], StableSort(Of(histories, order[j])));
      var latest := LastBy(byIssue[order[j]], day);
      SortedLastIsLatest(histories, order[j], day);
      CountsStep(histories, order, j, day, Todo);
      CountsStep(histories, order, j, day, InProgress);
      CountsStep(histories, order, j, day, Done);
      if latest.Some? {
        match latest.value.category {
          case Todo => todo := todo + 1;
          case InProgress => inProgress := inProgress + 1;
          case Done => done := done + 1;
        }
      }
    }
    assert order[..|order|] == order;
    p := Point(day, todo, inProgress, done, todo + inProgress + done);
  }

  lemma CountsStep(histories: seq<History>, order: seq<Id>, j: nat, day: int, c: Category)
    requires Unique(order) && j < |order|
    ensures |StateSet(histories, Elements(order[..j + 1]), day, c)|
      == |StateSet(histories, Elements(order[..j]), day, c)| + if InState(histories, order[j], day, c) then 1 else 0
  {
    var a := StateSet(histories, Elements(order[..j]), day, c);
    var b := StateSet(histories, Elements(order[..j + 1]), day, c);
    assert order[j] in order[..j + 1] && order[j] !in order[..j];
    assert forall id <- order[..j + 1] :: id in order[..j] || id == order[j];
    assert forall id <- order[..j] :: id in order[..j + 1];
    if InState(histories, order[j], day, c) {
      assert b == a + {order[j]};
    } else {
      assert b == a;
    }
  }

  // ---- Totals, monotonicity, independence of the input order

  function SeenBy(histories: seq<History>, day: int): set<Id> {
    set h <- histories | h.occurredAt <= day :: h.issueId
  }

  /** The total counts every issue with an event by the day, once. */
  lemma TotalIsSeen(histories: seq<History>, day: int)
    ensures FlowAt(histories, day).total == |SeenBy(histories, day)|
  {
    var ids := IdsOf(histories);
    var a, b := StateSet(histories, ids, day, Todo), StateSet(histories, ids, day, InProgress);
    var c := StateSet(histories, ids, day, Done);
    forall id ensures id in SeenBy(histories, day) <==> id in a + b + c {
      LatestMeans(histories, id, day);
    }
    assert SeenBy(histories, day) == a + b + c;
    assert a !! b && (a + b) !! c;
    assert |a + b| == |a| + |b|;
  }

  lemma TotalNeverDecreases(histories: seq<History>, day: int, later: int)
    requires day <= later
    ensures FlowAt(histories, day).total <= FlowAt(histories, later).total
  {
    TotalIsSeen(histories, day);
    TotalIsSeen(histories, later);
    var a, b := SeenBy(histories, day), SeenBy(histories, later);
    assert a <= b;
    assert b == a + (b - a);
  }

  /** Two events of one issue, both at the time of its latest event by the day. */
  predicate Tied(histories: seq<History>, a: History, b: History, day: int) {
    && a.issueId == b.issueId && a.occurredAt == b.occurredAt
    && Latest(histories, a.issueId, day).Some? && Latest(histories, a.issueId, day).value.occurredAt == a.occurredAt
  }

  /** Wherever an issue's latest time by the day has several events, they agree on the category. */
  ghost predicate Settled(histories: seq<History>, day: int) {
    forall a, b :: a in histories && b in histories && Tied(histories, a, b, day) ==> a.category == b.category
  }

  ghost predicate IgnoresOrder(histories: seq<History>, day: int) {
    forall other :: multiset(other) == multiset(histories) ==> FlowAt(other, day) == FlowAt(histories, day)
  }

  lemma StateCarriesOver(histories: seq<History>, other: seq<History>, id: Id, day: int, c: Category)
    requires Settled(histories, day) && forall h :: h in histories <==> h in other
    ensures InState(histories, id, day, c) <==> InState(other, id, day, c)
  {
    LatestMeans(histories, id, day);
    LatestMeans(other, id, day);
    var l, m := Latest(histories, id, day), Latest(other, id, day);
    if l.Some? && m.Some? { assert Tied(histories, l.value, m.value, day); }
  }

  lemma SettledIgnoresOrder(histories: seq<History>, other: seq<History>, day: int)
    requires Settled(histories, day) && multiset(other) == multiset(histories)
    ensures FlowAt(other, day) == FlowAt(histories, day)
  {
    forall h ensures h in histories <==> h in other {
      assert h in multiset(histories) <==> h in multiset(other);
    }
    assert IdsOf(histories) == IdsOf(other);
    var ids := IdsOf(histories);
    forall c: Category ensures StateSet(histories, ids, day, c) == StateSet(other, ids, day, c) {
      forall id ensures InState(histories, id, day, c) <==> InState(other, id, day, c) {
        StateCarriesOver(histories, other, id, day, c);
      }
    }
  }

  lemma LatestOfPair(rest: seq<History>, a: History, b: History, id: Id, day: int)
    requires a.issueId == b.issueId && a.occurredAt == b.occurredAt <= day
    requires forall h <- rest :: Eligible(h, a.issueId, day) ==> h.occurredAt <= a.occurredAt
    ensures Latest(rest + [a, b], id, day) == if id == a.issueId then Some(b) else Latest(rest, id, day)
  {
    var s := rest + [a, b];
    assert s[..|s| - 1] == rest + [a] && (rest + [a])[..|rest|] == rest;
    LatestMeans(rest, id, day);
  }

  /** Tied events that disagree: exchanging them moves one issue between two counts. */
  lemma ExchangeShows(rest: seq<History>, a: History, b: History, day: int)
    requires a.issueId == b.issueId && a.occurredAt == b.occurredAt <= day && a.category != b.category
    requires forall h <- rest :: Eligible(h, a.issueId, day) ==> h.occurredAt <= a.occurredAt
    ensures FlowAt(rest + [a, b], day) != FlowAt(rest + [b, a], day)
  {
    var s, t, id := rest + [a, b], rest + [b, a], a.issueId;
    var ids := IdsOf(s);
    forall h ensures h in s <==> h in t {}
    assert IdsOf(t) == ids;
    assert b in s && id in ids;
    forall x ensures InState(s, x, day, b.category) <==> x == id || InState(t, x, day, b.category) {
      LatestOfPair(rest, a, b, x, day);
      LatestOfPair(rest, b, a, x, day);
    }
    LatestOfPair(rest, b, a, id, day);
    var here, there := StateSet(s, ids, day, b.category), StateSet(t, ids, day, b.category);
    assert id !in there && here == there + {id};
    match b.category { case Todo => case InProgress => case Done => }
  }

  lemma TakeOut(s: seq<History>, x: History) returns (rest: seq<History>)
    requires x in s
    ensures multiset(s) == multiset(rest) + multiset{x}
  {
    var i :| 0 <= i < |s| && s[i] == x;
    rest := s[..i] + s[i + 1..];
    assert s == s[..i] + [x] + s[i + 1..];
  }

  /** The report of a day ignores the input order exactly when no issue's latest time is ambiguous;
      distinct event times per issue are one way to be sure of that. */
  lemma IgnoresOrderIffSettled(histories: seq<History>, day: int)
    ensures IgnoresOrder(histories, day) <==> Settled(histories, day)
  {
    if Settled(histories, day) {
      forall other | multiset(other) == multiset(histories) ensures FlowAt(other, day) == FlowAt(histories, day) {
        SettledIgnoresOrder(histories, other, day);
      }
    } else {
      var a, b :| a in histories && b in histories && Tied(histories, a, b, day) && a.category != b.category;
      var rest := TakeOutTied(histories, a, b, day);
      ExchangeShows(rest, a, b, day);
    }
  }

  lemma TakeOutTied(histories: seq<History>, a: History, b: History, day: int) returns (rest: seq<History>)
    requires a in histories && b in histories && Tied(histories, a, b, day) && a.category != b.category
    ensures multiset(rest + [a, b]) == multiset(histories) == multiset(rest + [b, a])
    ensures a.occurredAt <= day && forall h <- rest :: Eligible(h, a.issueId, day) ==> h.occurredAt <= a.occurredAt
  {
    LatestMeans(histories, a.issueId, day);
    var fewer := TakeOut(histories, a);
    assert b in multiset(histories) && b in multiset(fewer);
    rest := TakeOut(fewer, b);
    forall h <- rest | Eligible(h, a.issueId, day) ensures h.occurredAt <= a.occurredAt {
      assert h in multiset(rest) && h in multiset(histories);
    }
  }

  predicate DistinctTimes(histories: seq<History>) {
    forall i, j :: 0 <= i < j < |histories| && histories[i].issueId == histories[j].issueId ==>
      histories[i].occurredAt != histories[j].occurredAt
  }

  lemma SameTimeSamePlace(histories: seq<History>, i: nat, j: nat)
    requires DistinctTimes(histories) && i < |histories| && j < |histories|
    requires histories[i].issueId == histories[j].issueId && histories[i].occurredAt == histories[j].occurredAt
    ensures i == j
  {}

  lemma DistinctTimesSettle(histories: seq<History>, day: int)
    requires DistinctTimes(histories)
    ensures IgnoresOrder(histories, day)
  {
    forall a, b | a in histories && b in histories && Tied(histories, a, b, day) ensures a == b {
      var i :| 0 <= i < |histories| && histories[i] == a;
      var j :| 0 <= j < |histories| && histories[j] == b;
      SameTimeSamePlace(histories, i, j);
    }
    IgnoresOrderIffSettled(histories, day);
  }

  // ---- Burndown

  datatype Membership = Membership(issueId: Id, addedAt: int, estimate: Option<int>)
  datatype Burn = Burn(day: int, scope: int, remaining: int, completed: int, unestimated: nat)

  /** The last event in input order, among those up to the instant. */
  function LastInput(histories: seq<History>, id: Id, day: int, scopeOnly: bool): Option<History> {
    if histories == [] then None
    else
      var h := histories[|histories| - 1];
      if Eligible(h, id, day) && (scopeOnly ==> !h.event.OtherEvent?) then Some(h)
      else LastInput(histories[..|histories| - 1], id, day, scopeOnly)
  }

  predicate InScope(histories: seq<History>, m: Membership, day: int) {
    var scopeEvent := LastInput(histories, m.issueId, day, true);
    m.addedAt <= day && !(scopeEvent.Some? && scopeEvent.value.event.SprintRemoved?)
  }

  function EstimateOf(histories: seq<History>, m: Membership, day: int): Option<int> {
    var latest := LastInput(histories, m.issueId, day, false);
    if latest.Some? && latest.value.estimate.Some? then latest.value.estimate else m.estimate
  }

  predicate IsDone(histories: seq<History>, m: Membership, day: int) {
    var latest := LastInput(histories, m.issueId, day, false);
    latest.Some? && latest.value.category.Done?
  }

  /** Estimates of the members in scope; `done` narrows it to finished or unfinished ones. */
  function Work(histories: seq<History>, ms: seq<Membership>, day: int, done: Option<bool>): int {
    if ms == [] then 0
    else
      var m := ms[|ms| - 1];
      Work(histories, ms[..|ms| - 1], day, done)
      + if InScope(histories, m, day) && (done.Some? ==> IsDone(histories, m, day) == done.value)
        then EstimateOf(histories, m, day).GetOr(0) else 0
  }

  function Unestimated(histories: seq<History>, ms: seq<Membership>, day: int): nat {
    if ms == [] then 0
    else
      var m := ms[|ms| - 1];
      Unestimated(histories, ms[..|ms| - 1], day)
      + if InScope(histories, m, day) && EstimateOf(histories, m, day).None? then 1 else 0
  }

  /** What is unfinished and what is finished make up the scope. */
  lemma {:induction false} ScopeSplits(histories: seq<History>, ms: seq<Membership>, day: int)
    ensures Work(histories, ms, day, None) ==
      Work(histories, ms, day, Some(true)) + Work(histories, ms, day, Some(false))
    decreases |ms|
  {
    if ms != [] { ScopeSplits(histories, ms[..|ms| - 1], day); }
  }

  predicate NonNegative(histories: seq<History>, ms: seq<Membership>) {
    && (forall h <- histories :: h.estimate.Some? ==> h.estimate.value >= 0)
    && (forall m <- ms :: m.estimate.Some? ==> m.estimate.value >= 0)
  }

  lemma {:induction false} LastInputWithin(histories: seq<History>, id: Id, day: int, scopeOnly: bool)
    ensures LastInput(histories, id, day, scopeOnly).Some? ==>
      LastInput(histories, id, day, scopeOnly).value in histories
    decreases |histories|
  {
    if histories != [] { LastInputWithin(histories[..|histories| - 1], id, day, scopeOnly); }
  }

  lemma {:induction false} WorkIsNonNegative(histories: seq<History>, ms: seq<Membership>, day: int, done: Option<bool>)
    requires NonNegative(histories, ms)
    ensures Work(histories, ms, day, done) >= 0
    decreases |ms|
  {
    if ms != [] {
      var m := ms[|ms| - 1];
      assert m in ms && forall x <- ms[..|ms| - 1] :: x in ms;
      WorkIsNonNegative(histories, ms[..|ms| - 1], day, done);
      LastInputWithin(histories, m.issueId, day, false);
    }
  }

  /** One point a day up to the end or now: remaining is the unfinished work in scope, completed the
      finished work, and with estimates that are not negative remaining stays within the scope. */
  method Burndown(
    startsAt: int, endsAt: int, now: int, histories: seq<History>, ms: seq<Membership>)
    returns (points: seq<Burn>)
    ensures var end := if endsAt < now then endsAt else now;
      |points| == if DayOf(startsAt) <= DayOf(end) then DayOf(end) - DayOf(startsAt) + 1 else 0
    ensures forall i :: 0 <= i < |points| ==>
      DayOf(points[i].day) == DayOf(startsAt) + i && DayOf(points[i].day + 1) == DayOf(startsAt) + i + 1
    ensures forall p <- points ::
      && p.scope == Work(histories, ms, p.day, None) && p.remaining == Work(histories, ms, p.day, Some(false))
      && p.completed == Work(histories, ms, p.day, Some(true)) && p.unestimated == Unestimated(histories, ms, p.day)
    ensures NonNegative(histories, ms) ==> forall p <- points :: 0 <= p.remaining <= p.scope
  {
    var end := if endsAt < now then endsAt else now;
    var days := UtcDays(startsAt, end);
    points := [];
    for i := 0 to |days|
      invariant |points| == i && forall k :: 0 <= k < i ==> points[k].day == days[k]
      invariant forall p <- points ::
        && p.scope == Work(histories, ms, p.day, None) && p.remaining == Work(histories, ms, p.day, Some(false))
        && p.completed == Work(histories, ms, p.day, Some(true)) && p.unestimated == Unestimated(histories, ms, p.day)
      invariant NonNegative(histories, ms) ==> forall p <- points :: 0 <= p.remaining <= p.scope
    {
      var point := BurnDay(histories, ms, days[i]);
      points := points + [point];
    }
  }

  method BurnDay(histories: seq<History>, ms: seq<Membership>, day: int) returns (p: Burn)
    ensures p == Burn(day, Work(histories, ms, day, None), Work(histories, ms, day, Some(false)),
                      Work(histories, ms, day, Some(true)), Unestimated(histories, ms, day))
    ensures NonNegative(histories, ms) ==> 0 <= p.remaining <= p.scope
  {
    var scope, remaining, unestimated := 0, 0, 0;
    for i := 0 to |ms|
      invariant scope == Work(histories, ms[..i], day, None) && remaining == Work(histories, ms[..i], day, Some(false))
      invariant unestimated == Unestimated(histories, ms[..i], day)
    {
      var m := ms[i];
      assert ms[..i + 1][..i] == ms[..i];
      if m.addedAt > day { continue; }
      var scopeEvent := LastInput(histories, m.issueId, day, true);
      if scopeEvent.Some? && scopeEvent.value.event.SprintRemoved? { continue; }
      var latest := LastInput(histories, m.issueId, day, false);
      var estimate := if latest.Some? && latest.value.estimate.Some? then latest.value.estimate else m.estimate;
      scope := scope + estimate.GetOr(0);
      if estimate.None? { unestimated := unestimated + 1; }
      if latest.None? || !latest.value.category.Done? { remaining := remaining + estimate.GetOr(0); }
    }
    assert ms[..|ms|] == ms;
    ScopeSplits(histories, ms, day);
    if NonNegative(histories, ms) {
      WorkIsNonNegative(histories, ms, day, Some(false));
      WorkIsNonNegative(histories, ms, day, Some(true));
    }
    p := Burn(day, scope, remaining, scope - remaining, unestimated);
  }

  /** On histories in order of time, as they are loaded, both reports look at the same latest event. */
  lemma {:induction false} LoadedInOrder(histories: seq<History>, id: Id, day: int)
    requires Sorted(histories)
    ensures LastInput(histories, id, day, false) == Latest(histories, id, day)
    decreases |histories|
  {
    if histories != [] {
      LoadedInOrder(histories[..|histories| - 1], id, day);
      LatestMeans(histories[..|histories| - 1], id, day);
    }
  }
}
