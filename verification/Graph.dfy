/** Finite directed graphs of dependency edges: walks, cycles, reachability and
    the weight of a walk.  Nothing here follows any algorithm of the program; these
    are the definitions its results are measured against. */
module Graph {

  /** A database identifier: never empty, and only ever compared for equality. */
  type Id = int

  datatype Edge = Edge(fromId: Id, toId: Id, kind: string, lagDays: int)

  /** `w` leads from `a` to `b` along edges of `es`; the empty walk stays where it is. */
  ghost predicate Walk(es: seq<Edge>, a: Id, w: seq<Edge>, b: Id)
    decreases |w|
  {
    if w == [] then a == b
    else
      var last := w[|w| - 1];
      last in es && last.toId == b && Walk(es, a, w[..|w| - 1], last.fromId)
  }

  ghost predicate Linked(es: seq<Edge>, a: Id, b: Id) {
    exists e :: e in es && e.fromId == a && e.toId == b
  }

  ghost predicate Reaches(es: seq<Edge>, a: Id, b: Id) {
    exists w :: Walk(es, a, w, b)
  }

  ghost predicate OnCycle(es: seq<Edge>, v: Id) {
    exists w :: w != [] && Walk(es, v, w, v)
  }

  ghost predicate Acyclic(es: seq<Edge>) {
    forall v :: !OnCycle(es, v)
  }

  /** Total length of a walk: the duration of every node on it plus the lag of every edge. */
  ghost function Weight(duration: Id -> int, a: Id, w: seq<Edge>): int
    decreases |w|
  {
    if w == [] then duration(a)
    else
      var last := w[|w| - 1];
      Weight(duration, a, w[..|w| - 1]) + last.lagDays + duration(last.toId)
  }

  /** `d` is the greatest weight of a walk that ends at `v`, and some walk attains it. */
  ghost predicate IsLongestTo(es: seq<Edge>, duration: Id -> int, v: Id, d: int) {
    && (exists a, w :: Walk(es, a, w, v) && Weight(duration, a, w) == d)
    && (forall a, w :: Walk(es, a, w, v) ==> Weight(duration, a, w) <= d)
  }

  lemma WalkStep(es: seq<Edge>, a: Id, w: seq<Edge>, e: Edge)
    requires e in es && Walk(es, a, w, e.fromId)
    ensures Walk(es, a, w + [e], e.toId)
  {
    assert (w + [e])[..|w|] == w;
  }

  lemma {:induction false} WalkConcat(es: seq<Edge>, a: Id, w1: seq<Edge>, b: Id, w2: seq<Edge>, c: Id)
    requires Walk(es, a, w1, b) && Walk(es, b, w2, c)
    ensures Walk(es, a, w1 + w2, c)
    decreases |w2|
  {
    if w2 == [] {
      assert w1 + w2 == w1;
    } else {
      var n := |w2| - 1;
      WalkConcat(es, a, w1, b, w2[..n], w2[n].fromId);
      assert (w1 + w2)[..|w1| + n] == w1 + w2[..n];
    }
  }

  /** Cutting off the last edge of a walk, as facts about the whole walk. */
  lemma WalkLast(es: seq<Edge>, a: Id, w: seq<Edge>, b: Id)
    requires Walk(es, a, w, b) && w != []
    ensures w[|w| - 1] in es && w[|w| - 1].toId == b
    ensures Walk(es, a, w[..|w| - 1], w[|w| - 1].fromId)
  {}

  /** A set that is closed under the edges keeps every walk that starts in it. */
  lemma {:induction false} ClosedKeepsWalks(es: seq<Edge>, s: set<Id>, a: Id, w: seq<Edge>, b: Id)
    requires forall e <- es :: e.fromId in s ==> e.toId in s
    requires a in s && Walk(es, a, w, b)
    ensures b in s
    decreases |w|
  {
    if w != [] {
      ClosedKeepsWalks(es, s, a, w[..|w| - 1], w[|w| - 1].fromId);
    }
  }

  /** A numbering that strictly rises along every edge rules out cycles. */
  lemma {:induction false} RankRises(es: seq<Edge>, rank: map<Id, int>, a: Id, w: seq<Edge>, b: Id)
    requires forall e <- es :: e.fromId in rank && e.toId in rank && rank[e.fromId] < rank[e.toId]
    requires w != [] && Walk(es, a, w, b)
    ensures a in rank && b in rank && rank[a] < rank[b]
    decreases |w|
  {
    var last := w[|w| - 1];
    if |w| > 1 {
      RankRises(es, rank, a, w[..|w| - 1], last.fromId);
    } else {
      assert w[..|w| - 1] == [];
    }
  }

  lemma RankedIsAcyclic(es: seq<Edge>, rank: map<Id, int>)
    requires forall e <- es :: e.fromId in rank && e.toId in rank && rank[e.fromId] < rank[e.toId]
    ensures Acyclic(es)
  {
    forall v ensures !OnCycle(es, v) {
      if OnCycle(es, v) {
        var w :| w != [] && Walk(es, v, w, v);
        RankRises(es, rank, v, w, v);
      }
    }
  }

  /** More edges keep every walk. */
  lemma {:induction false} WalkMonotone(es: seq<Edge>, more: seq<Edge>, a: Id, w: seq<Edge>, b: Id)
    requires forall e <- es :: e in more
    requires Walk(es, a, w, b)
    ensures Walk(more, a, w, b)
    decreases |w|
  {
    if w != [] {
      WalkMonotone(es, more, a, w[..|w| - 1], w[|w| - 1].fromId);
    }
  }
}
