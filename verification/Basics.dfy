/** Small facts about numbers, finite sets and strings that several modules use. */
module Basics {
  function Max(a: int, b: int): int {
    if a < b then b else a
  }

  /** A character beyond U+FFFF takes two UTF-16 code units. */
  function UnitsOf(c: char): nat {
    if c > '\U{FFFF}' then 2 else 1
  }

  /** The length of a string as the program measures it, in UTF-16 code units. */
  function Units(s: string): nat {
    if s == "" then 0 else UnitsOf(s[0]) + Units(s[1..])
  }

  lemma {:induction false} UnitsConcat(xs: string, ys: string)
    ensures Units(xs + ys) == Units(xs) + Units(ys)
    decreases |xs|
  {
    if xs == "" {
      assert xs + ys == ys;
    } else {
      assert (xs + ys)[0] == xs[0] && (xs + ys)[1..] == xs[1..] + ys;
      UnitsConcat(xs[1..], ys);
    }
  }

  lemma {:induction false} UnitsWithin(s: string)
    ensures |s| <= Units(s) <= 2 * |s|
    decreases |s|
  {
    if s != "" { UnitsWithin(s[1..]); }
  }

  /** Characters and units coincide exactly for text of the Basic Multilingual Plane. */
  lemma {:induction false} UnitsAreCharsIff(s: string)
    ensures Units(s) >= |s| && (Units(s) == |s| <==> forall c <- s :: c <= '\U{FFFF}')
    decreases |s|
  {
    if s != "" {
      UnitsAreCharsIff(s[1..]);
      assert s[0] in s && forall c <- s :: c == s[0] || c in s[1..];
      assert forall c <- s[1..] :: c in s;
    }
  }

  lemma {:induction false} SubsetSize<T>(a: set<T>, b: set<T>)
    requires a <= b
    ensures |a| <= |b|
    decreases a
  {
    if a != {} {
      var x :| x in a;
      SubsetSize(a - {x}, b - {x});
    }
  }
}
