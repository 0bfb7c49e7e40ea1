/** Parent pointers: chains of ancestors, and what it takes for them to form a forest. */
module Forest {
  import opened Wrappers

  type Id = int
  type Parents = map<Id, Option<Id>>

  function Step(p: Parents, x: Id): Option<Id> {
    if x in p then p[x] else None
  }

  /** The ancestor `n` steps above `x`, if the chain is that long; `x` itself for 0. */
  function Climb(p: Parents, x: Id, n: nat): Option<Id> {
    if n == 0 then Some(x)
    else
      match Climb(p, x, n - 1)
      case None => None
      case Some(y) => Step(p, y)
  }

  ghost predicate Ends(p: Parents, x: Id) {
    exists n: nat :: Climb(p, x, n).None?
  }

  ghost predicate Meets(p: Parents, x: Id, target: Id) {
    exists n: nat :: Climb(p, x, n) == Some(target)
  }

  /** Every chain of ancestors comes to an end. */
  ghost predicate IsForest(p: Parents) {
    forall x :: Ends(p, x)
  }

  lemma {:induction false} ClimbOn(p: Parents, x: Id, n: nat, m: nat)
    requires Climb(p, x, n).Some?
    ensures Climb(p, x, n + m) == Climb(p, Climb(p, x, n).value, m)
    decreases m
  {
    if m > 0 { ClimbOn(p, x, n, m - 1); }
  }

  lemma {:induction false} EndedStaysEnded(p: Parents, x: Id, n: nat, m: nat)
    requires Climb(p, x, n).None? && n <= m
    ensures Climb(p, x, m).None?
    decreases m
  {
    if n < m { EndedStaysEnded(p, x, n, m - 1); }
  }

  /** A chain that comes back to an earlier ancestor stays among the ancestors up to there. */
  lemma {:induction false} Periodic(p: Parents, x: Id, k: nat, n: nat, m: nat) returns (j: nat)
    requires k < n && Climb(p, x, n).Some? && Climb(p, x, n) == Climb(p, x, k)
    requires forall i :: 0 <= i <= n ==> Climb(p, x, i).Some?
    ensures j < n && Climb(p, x, m) == Climb(p, x, j)
    decreases m
  {
    if m < n {
      j := m;
    } else {
      ClimbOn(p, x, n, m - n);
      ClimbOn(p, x, k, m - n);
      j := Periodic(p, x, k, n, k + (m - n));
    }
  }

  /** Nobody meets themselves above in a forest. */
  lemma ForestHasNoLoop(p: Parents, x: Id, n: nat)
    requires Ends(p, x) && n > 0
    ensures Climb(p, x, n) != Some(x)
  {
    if Climb(p, x, n) == Some(x) {
      var e: nat :| Climb(p, x, e).None?;
      forall i | 0 <= i <= n ensures Climb(p, x, i).Some? {
        if Climb(p, x, i).None? { EndedStaysEnded(p, x, i, n); }
      }
      var j := Periodic(p, x, 0, n, e);
    }
  }

  /** A chain that avoids `child` does not notice where `child` hangs. */
  lemma {:induction false} ClimbElsewhere(p: Parents, child: Id, parent: Option<Id>, x: Id, n: nat)
    requires forall i :: 0 <= i < n ==> Climb(p, x, i) != Some(child)
    ensures Climb(p[child := parent], x, n) == Climb(p, x, n)
    decreases n
  {
    if n > 0 { ClimbElsewhere(p, child, parent, x, n - 1); }
  }

  lemma {:induction false} FirstMeeting(p: Parents, x: Id, target: Id, n: nat) returns (m: nat)
    requires Climb(p, x, n) == Some(target)
    ensures Climb(p, x, m) == Some(target) && forall i :: 0 <= i < m ==> Climb(p, x, i) != Some(target)
    decreases n
  {
    if i :| 0 <= i < n && Climb(p, x, i) == Some(target) {
      m := FirstMeeting(p, x, target, i);
    } else {
      m := n;
    }
  }

  lemma HungEnds(p: Parents, child: Id, parent: Option<Id>)
    requires IsForest(p) && (parent.Some? ==> !Meets(p, parent.value, child))
    ensures Ends(p[child := parent], child)
  {
    var q := p[child := parent];
    assert Climb(q, child, 1) == parent by {
      assert Climb(q, child, 0) == Some(child);
    }
    if parent.Some? {
      assert Ends(p, parent.value);
      var e: nat :| Climb(p, parent.value, e).None?;
      ClimbElsewhere(p, child, parent, parent.value, e);
      ClimbOn(q, child, 1, e);
      assert Climb(q, child, 1 + e).None?;
    }
  }

  lemma ChainEndsAfterHang(p: Parents, child: Id, parent: Option<Id>, x: Id)
    requires IsForest(p) && (parent.Some? ==> !Meets(p, parent.value, child))
    ensures Ends(p[child := parent], x)
  {
    var q := p[child := parent];
    if Meets(p, x, child) {
      var n: nat :| Climb(p, x, n) == Some(child);
      var m := FirstMeeting(p, x, child, n);
      ClimbElsewhere(p, child, parent, x, m);
      HungEnds(p, child, parent);
      var e: nat :| Climb(q, child, e).None?;
      ClimbOn(q, x, m, e);
      assert Climb(q, x, m + e).None?;
    } else {
      assert Ends(p, x);
      var e: nat :| Climb(p, x, e).None?;
      ClimbElsewhere(p, child, parent, x, e);
      assert Climb(q, x, e).None?;
    }
  }

  /** Hanging `child` under a parent whose own chain does not meet it keeps a forest. */
  lemma HangKeepsForest(p: Parents, child: Id, parent: Option<Id>)
    requires IsForest(p) && (parent.Some? ==> !Meets(p, parent.value, child))
    ensures IsForest(p[child := parent])
  {
    var q := p[child := parent];
    forall x ensures Ends(q, x) {
      ChainEndsAfterHang(p, child, parent, x);
    }
  }

  /** Under a parent whose chain does meet it, `child` would loop: the guard is exact. */
  lemma HangUnderDescendantLoops(p: Parents, child: Id, parent: Id)
    requires IsForest(p) && Meets(p, parent, child)
    ensures !IsForest(p[child := Some(parent)])
  {
    var q := p[child := Some(parent)];
    var n: nat :| Climb(p, parent, n) == Some(child);
    var m := FirstMeeting(p, parent, child, n);
    ClimbElsewhere(p, child, Some(parent), parent, m);
    assert Climb(q, child, 0) == Some(child);
    assert Climb(q, child, 1) == Some(parent);
    ClimbOn(q, child, 1, m);
    if Ends(q, child) { ForestHasNoLoop(q, child, 1 + m); }
  }

  // ---- Moving several nodes at once

  /** Where two sets of pointers agree on a set that the chains do not leave, so do the chains. */
  lemma {:induction false} ClimbInside(p: Parents, q: Parents, inside: set<Id>, x: Id, n: nat)
    requires forall y <- inside :: Step(q, y) == Step(p, y) && (Step(p, y).Some? ==> Step(p, y).value in inside)
    requires x in inside
    ensures Climb(q, x, n) == Climb(p, x, n)
    ensures Climb(p, x, n).Some? ==> Climb(p, x, n).value in inside
    decreases n
  {
    if n > 0 { ClimbInside(p, q, inside, x, n - 1); }
  }

  lemma {:induction false} ClimbOutside(p: Parents, q: Parents, moved: set<Id>, x: Id, n: nat)
    requires forall y :: y !in moved ==> Step(q, y) == Step(p, y)
    requires forall i: nat :: i < n && Climb(q, x, i).Some? ==> Climb(q, x, i).value !in moved
    ensures Climb(q, x, n) == Climb(p, x, n)
    decreases n
  {
    if n > 0 { ClimbOutside(p, q, moved, x, n - 1); }
  }

  lemma EndsPastMoved(p: Parents, q: Parents, moved: set<Id>, x: Id)
    requires IsForest(p) && forall y :: y !in moved ==> Step(q, y) == Step(p, y)
    requires forall m <- moved :: Ends(q, m)
    ensures Ends(q, x)
  {
    assert Ends(p, x);
    var e: nat :| Climb(p, x, e).None?;
    if i: nat :| i < e && Climb(q, x, i).Some? && Climb(q, x, i).value in moved {
      var m := Climb(q, x, i).value;
      var k: nat :| Climb(q, m, k).None?;
      ClimbOn(q, x, i, k);
      assert Climb(q, x, i + k).None?;
    } else {
      ClimbOutside(p, q, moved, x, e);
      assert Climb(q, x, e).None?;
    }
  }

  /** Moving nodes of a forest leaves a forest exactly when the chains of the moved nodes still end. */
  lemma MovedForestIff(p: Parents, q: Parents, moved: set<Id>)
    requires IsForest(p) && forall y :: y !in moved ==> Step(q, y) == Step(p, y)
    ensures IsForest(q) <==> forall m <- moved :: Ends(q, m)
  {
    if forall m <- moved :: Ends(q, m) {
      forall x ensures Ends(q, x) { EndsPastMoved(p, q, moved, x); }
    }
  }

  // ---- The walk both hierarchy checks make

  datatype Walk = Clear | MeetsChild | Loops

  /** Climbs from `start` until the chain ends, meets `child` or repeats itself; terminates on any data. */
  method WalkUp(p: Parents, start: Id, child: Id) returns (r: Walk)
    ensures r == MeetsChild <==> Meets(p, start, child)
    ensures r == Clear <==> Ends(p, start) && !Meets(p, start, child)
  {
    var cursor, seen: set<Id> := Some(start), {};
    ghost var n: nat := 0;
    while cursor.Some?
      invariant cursor == Climb(p, start, n)
      invariant forall i :: 0 <= i < n ==> Climb(p, start, i).Some? && Climb(p, start, i).value in seen
      invariant forall x <- seen :: exists i :: 0 <= i < n && Climb(p, start, i) == Some(x)
      invariant child !in seen
      decreases cursor.Some?, p.Keys - seen
    {
      if cursor.value == child {
        return MeetsChild;
      }
      if cursor.value in seen {
        ghost var k: nat :| k < n && Climb(p, start, k) == cursor;
        Repeats(p, start, k, n, child);
        return Loops;
      }
      ghost var before := seen;
      seen := seen + {cursor.value};
      assert cursor.value in seen && cursor.value !in before;
      assert Climb(p, start, n + 1) == Step(p, cursor.value);
      cursor := if cursor.value in p then p[cursor.value] else None;
      n := n + 1;
    }
    r := Clear;
    if m: nat :| Climb(p, start, m) == Some(child) {
      if m >= n { EndedStaysEnded(p, start, n, m); }
      assert false;
    }
  }

  lemma Repeats(p: Parents, start: Id, k: nat, n: nat, child: Id)
    requires k < n && Climb(p, start, n).Some? && Climb(p, start, k) == Climb(p, start, n)
    requires forall i :: 0 <= i < n ==> Climb(p, start, i).Some? && Climb(p, start, i) != Some(child)
    ensures !Ends(p, start) && !Meets(p, start, child)
  {
    forall m: nat ensures Climb(p, start, m).Some? && Climb(p, start, m) != Some(child) {
      var j := Periodic(p, start, k, n, m);
    }
  }
}
