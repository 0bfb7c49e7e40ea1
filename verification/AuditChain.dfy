/** The audit log: one hash chain per workspace, whose oldest prefix may be deleted after
    an anchor has taken the place of its last event. */
module AuditChain {
  import opened Wrappers

  type Id = int

  /** The digest the database computes over workspace, sequence, previous hash ("" for none),
      event id and the remaining columns. */
  type Digest = (Id, int, string, Id, string) -> string

  /** `payload` is the text of the remaining columns, joined as they are hashed. */
  datatype Event = Event(id: Id, sequence: int, previousHash: Option<string>, payload: string, eventHash: string)
  datatype Anchor = Anchor(sequence: int, eventHash: string)

  /** The stored events of one workspace in sequence order, behind the anchor if there is one. */
  datatype Chain = Chain(anchor: Option<Anchor>, events: seq<Event>)

  function Expected(digest: Digest, workspace: Id, e: Event): string {
    digest(workspace, e.sequence, e.previousHash.GetOr(""), e.id, e.payload)
  }

  // ---- Verification

  function HeadSequence(anchor: Option<Anchor>): int {
    if anchor.None? then 0 else anchor.value.sequence
  }

  function HeadHash(anchor: Option<Anchor>): Option<string> {
    if anchor.None? then None else Some(anchor.value.eventHash)
  }

  /** The test the verifier applies to row `i`. */
  predicate Broken(digest: Digest, workspace: Id, c: Chain, i: nat)
    requires i < |c.events|
  {
    var row := c.events[i];
    || row.eventHash != Expected(digest, workspace, row)
    || (i == 0 && (row.sequence != HeadSequence(c.anchor) + 1 || row.previousHash != HeadHash(c.anchor)))
    || (i > 0 && row.previousHash != Some(c.events[i - 1].eventHash))
    || (i > 0 && row.sequence != c.events[i - 1].sequence + 1)
  }

  /** A chain as it grows: every event continues the one before it, starting from
      a given sequence number and hash. */
  ghost predicate Continues(digest: Digest, workspace: Id, sequence: int, hash: Option<string>, events: seq<Event>)
    decreases |events|
  {
    events == [] ||
    var e := events[0];
    && e.sequence == sequence + 1 && e.previousHash == hash && e.eventHash == Expected(digest, workspace, e)
    && Continues(digest, workspace, e.sequence, Some(e.eventHash), events[1..])
  }

  ghost predicate Intact(digest: Digest, workspace: Id, c: Chain) {
    Continues(digest, workspace, HeadSequence(c.anchor), HeadHash(c.anchor), c.events)
  }

  lemma {:induction false} IntactIffNothingBroken(digest: Digest, workspace: Id, c: Chain)
    ensures Intact(digest, workspace, c) <==> forall i :: 0 <= i < |c.events| ==> !Broken(digest, workspace, c, i)
    decreases |c.events|
  {
    if c.events != [] {
      var e := c.events[0];
      var rest := Chain(Some(Anchor(e.sequence, e.eventHash)), c.events[1..]);
      IntactIffNothingBroken(digest, workspace, rest);
      assert forall i :: 0 < i < |c.events| ==> c.events[i] == rest.events[i - 1];
      forall i | 0 < i < |c.events|
        ensures Broken(digest, workspace, c, i) <==> Broken(digest, workspace, rest, i - 1)
      {
        assert i > 1 ==> c.events[i - 1] == rest.events[i - 2];
      }
      assert Intact(digest, workspace, c) <==> !Broken(digest, workspace, c, 0) && Intact(digest, workspace, rest);
      if forall i :: 0 <= i < |c.events| ==> !Broken(digest, workspace, c, i) {
        forall k | 0 <= k < |rest.events| ensures !Broken(digest, workspace, rest, k) {
          assert !Broken(digest, workspace, c, k + 1);
        }
      } else if forall k :: 0 <= k < |rest.events| ==> !Broken(digest, workspace, rest, k) {
        forall i | 0 < i < |c.events| ensures !Broken(digest, workspace, c, i) {
          assert !Broken(digest, workspace, rest, i - 1);
        }
      }
    }
  }

  method VerifyAuditChain(digest: Digest, workspace: Id, c: Chain) returns (brokenIds: seq<Id>)
    ensures brokenIds == [] <==> Intact(digest, workspace, c)
    ensures forall id :: id in brokenIds <==>
      exists i :: 0 <= i < |c.events| && c.events[i].id == id && Broken(digest, workspace, c, i)
  {
    brokenIds := [];
    for i := 0 to |c.events|
      invariant brokenIds == [] <==> forall k :: 0 <= k < i ==> !Broken(digest, workspace, c, k)
      invariant forall id :: id in brokenIds <==>
        exists k :: 0 <= k < i && c.events[k].id == id && Broken(digest, workspace, c, k)
    {
      if Broken(digest, workspace, c, i) {
        brokenIds := brokenIds + [c.events[i].id];
      }
    }
    IntactIffNothingBroken(digest, workspace, c);
  }

  // ---- Growth and deletion

  /** Where the next event continues: the last stored event, or the anchor. */
  function Tip(c: Chain): Option<Anchor> {
    if c.events == [] then c.anchor
    else Some(Anchor(c.events[|c.events| - 1].sequence, c.events[|c.events| - 1].eventHash))
  }

  function Appended(digest: Digest, workspace: Id, c: Chain, id: Id, payload: string): Chain {
    var sequence, previous := HeadSequence(Tip(c)) + 1, HeadHash(Tip(c));
    var hash := digest(workspace, sequence, previous.GetOr(""), id, payload);
    Chain(c.anchor, c.events + [Event(id, sequence, previous, payload, hash)])
  }

  /** How many events stand before the first that may not be deleted. */
  function EligiblePrefix(events: seq<Event>, ids: set<Id>): (n: nat)
    ensures n <= |events| && (forall i :: 0 <= i < n ==> events[i].id in ids)
    ensures n < |events| ==> events[n].id !in ids
  {
    if events == [] || events[0].id !in ids then 0
    else
      var n := EligiblePrefix(events[1..], ids);
      assert forall i :: 0 < i <= n ==> events[i] == events[1..][i - 1];
      n + 1
  }

  /** One transaction: the anchor moves to the last deleted event. */
  function Pruned(c: Chain, ids: set<Id>): Chain {
    var n := EligiblePrefix(c.events, ids);
    if n == 0 then c
    else Chain(Some(Anchor(c.events[n - 1].sequence, c.events[n - 1].eventHash)), c.events[n..])
  }

  lemma {:induction false} ContinuesAppend(
    digest: Digest, workspace: Id, sequence: int, hash: Option<string>, events: seq<Event>, e: Event)
    requires Continues(digest, workspace, sequence, hash, events)
    requires events == [] ==> e.sequence == sequence + 1 && e.previousHash == hash
    requires events != [] ==> e.sequence == events[|events| - 1].sequence + 1
    requires events != [] ==> e.previousHash == Some(events[|events| - 1].eventHash)
    requires e.eventHash == Expected(digest, workspace, e)
    ensures Continues(digest, workspace, sequence, hash, events + [e])
    decreases |events|
  {
    if events == [] {
      assert (events + [e])[1..] == [];
    } else {
      assert (events + [e])[1..] == events[1..] + [e];
      ContinuesAppend(digest, workspace, events[0].sequence, Some(events[0].eventHash), events[1..], e);
    }
  }

  lemma {:induction false} ContinuesDrop(
    digest: Digest, workspace: Id, sequence: int, hash: Option<string>, events: seq<Event>, n: nat)
    requires Continues(digest, workspace, sequence, hash, events) && 0 < n <= |events|
    ensures Continues(digest, workspace, events[n - 1].sequence, Some(events[n - 1].eventHash), events[n..])
    decreases n
  {
    if n > 1 {
      ContinuesDrop(digest, workspace, events[0].sequence, Some(events[0].eventHash), events[1..], n - 1);
      assert events[1..][n - 1..] == events[n..];
    }
  }

  lemma AppendKeepsIntact(digest: Digest, workspace: Id, c: Chain, id: Id, payload: string)
    requires Intact(digest, workspace, c)
    ensures Intact(digest, workspace, Appended(digest, workspace, c, id, payload))
  {
    var after := Appended(digest, workspace, c, id, payload);
    ContinuesAppend(digest, workspace, HeadSequence(c.anchor), HeadHash(c.anchor), c.events, after.events[|c.events|]);
  }

  /** In the columns of the rows: an intact chain numbers its events one by one, from one or behind its
      anchor, each names the hash of the one before it, and each hash is the digest of its own row. */
  lemma IntactMeans(digest: Digest, workspace: Id, c: Chain)
    ensures Intact(digest, workspace, c) <==> forall i :: 0 <= i < |c.events| ==> Follows(digest, workspace, c, i)
  {
    IntactIffNothingBroken(digest, workspace, c);
    forall i | 0 <= i < |c.events| ensures Follows(digest, workspace, c, i) <==> !Broken(digest, workspace, c, i) {}
  }

  ghost predicate Follows(digest: Digest, workspace: Id, c: Chain, i: nat)
    requires i < |c.events|
  {
    var e := c.events[i];
    && (if i > 0 then e.sequence == c.events[i - 1].sequence + 1 && e.previousHash == Some(c.events[i - 1].eventHash)
        else match c.anchor
             case None => e.sequence == 1 && e.previousHash == None
             case Some(a) => e.sequence == a.sequence + 1 && e.previousHash == Some(a.eventHash))
    && e.eventHash ==
         digest(workspace, e.sequence, match e.previousHash case Some(h) => h case None => "", e.id, e.payload)
  }

  /** An append adds one event, with the id and the payload given, behind those that are there. */
  lemma AppendMeans(digest: Digest, workspace: Id, c: Chain, id: Id, payload: string)
    ensures var after, n := Appended(digest, workspace, c, id, payload), |c.events|;
      && after.anchor == c.anchor && |after.events| == n + 1 && after.events[..n] == c.events
      && after.events[n].id == id && after.events[n].payload == payload && Follows(digest, workspace, after, n)
  {
    var after := Appended(digest, workspace, c, id, payload);
    assert after.events[..|c.events|] == c.events;
  }

  /** A deletion removes exactly the longest eligible prefix and leaves an intact chain that
      continues where it did. */
  lemma PruneKeepsIntact(digest: Digest, workspace: Id, c: Chain, ids: set<Id>)
    requires Intact(digest, workspace, c)
    ensures Intact(digest, workspace, Pruned(c, ids)) && Tip(Pruned(c, ids)) == Tip(c)
    ensures var n := |c.events| - |Pruned(c, ids).events|;
      && 0 <= n && Pruned(c, ids).events == c.events[n..]
      && (forall i :: 0 <= i < n ==> c.events[i].id in ids) && (n < |c.events| ==> c.events[n].id !in ids)
  {
    var n := EligiblePrefix(c.events, ids);
    assert Pruned(c, ids).events == c.events[n..];
    if n > 0 {
      ContinuesDrop(digest, workspace, HeadSequence(c.anchor), HeadHash(c.anchor), c.events, n);
    }
  }

  /** An ineligible event survives, and so does every event behind it. */
  lemma PruneSparesFrom(c: Chain, ids: set<Id>, i: nat, k: nat)
    requires i <= k < |c.events| && c.events[i].id !in ids
    ensures c.events[k] in Pruned(c, ids).events
  {
    var n := EligiblePrefix(c.events, ids);
    assert i >= n;
    assert c.events[n..][k - n] == c.events[k];
  }

  // ---- Runs over all workspaces

  type Log = map<Id, Chain>

  function ChainOf(log: Log, workspace: Id): Chain {
    if workspace in log then log[workspace] else Chain(None, [])
  }

  /** Deletions in the given workspaces, one transaction each, in order. */
  function PrunedAll(log: Log, ids: set<Id>, workspaces: seq<Id>): Log
    decreases |workspaces|
  {
    if workspaces == [] then log
    else
      var w := workspaces[|workspaces| - 1];
      var before := PrunedAll(log, ids, workspaces[..|workspaces| - 1]);
      before[w := Pruned(ChainOf(before, w), ids)]
  }

  /** An appended event, or a deletion that got through the first `done` workspaces. */
  datatype Step = Append(workspace: Id, id: Id, payload: string) | Delete(ids: set<Id>, workspaces: seq<Id>, done: nat)

  function Next(digest: Digest, log: Log, step: Step): Log {
    match step
    case Append(w, id, payload) => log[w := Appended(digest, w, ChainOf(log, w), id, payload)]
    case Delete(ids, workspaces, done) =>
      PrunedAll(log, ids, if done < |workspaces| then workspaces[..done] else workspaces)
  }

  function Run(digest: Digest, log: Log, steps: seq<Step>): Log
    decreases |steps|
  {
    if steps == [] then log else Run(digest, Next(digest, log, steps[0]), steps[1..])
  }

  ghost predicate AllIntact(digest: Digest, log: Log) {
    forall w :: Intact(digest, w, ChainOf(log, w))
  }

  lemma {:induction false} PrunedAllKeepsIntact(digest: Digest, log: Log, ids: set<Id>, workspaces: seq<Id>)
    requires AllIntact(digest, log)
    ensures AllIntact(digest, PrunedAll(log, ids, workspaces))
    decreases |workspaces|
  {
    if workspaces != [] {
      var w := workspaces[|workspaces| - 1];
      var before := PrunedAll(log, ids, workspaces[..|workspaces| - 1]);
      PrunedAllKeepsIntact(digest, log, ids, workspaces[..|workspaces| - 1]);
      PruneKeepsIntact(digest, w, ChainOf(before, w), ids);
      forall v ensures Intact(digest, v, ChainOf(PrunedAll(log, ids, workspaces), v)) {
        assert Intact(digest, v, ChainOf(before, v));
      }
    }
  }

  /** Every run of appends and deletions, stopped after any per-workspace transaction, verifies. */
  lemma {:induction false} RunKeepsIntact(digest: Digest, log: Log, steps: seq<Step>)
    requires AllIntact(digest, log)
    ensures AllIntact(digest, Run(digest, log, steps))
    decreases |steps|
  {
    if steps != [] {
      var next := Next(digest, log, steps[0]);
      match steps[0] {
        case Append(w, id, payload) =>
          AppendKeepsIntact(digest, w, ChainOf(log, w), id, payload);
          forall v ensures Intact(digest, v, ChainOf(next, v)) {
            assert Intact(digest, v, ChainOf(log, v));
          }
        case Delete(ids, workspaces, done) =>
          PrunedAllKeepsIntact(digest, log, ids, if done < |workspaces| then workspaces[..done] else workspaces);
      }
      RunKeepsIntact(digest, next, steps[1..]);
    }
  }

  /** Walks the events until the first that may not be deleted. */
  method CountDeletable(events: seq<Event>, ids: set<Id>) returns (deletable: nat)
    ensures deletable == EligiblePrefix(events, ids)
  {
    deletable := 0;
    assert events[0..] == events;
    while deletable < |events| && events[deletable].id in ids
      invariant deletable <= |events|
      invariant EligiblePrefix(events, ids) == deletable + EligiblePrefix(events[deletable..], ids)
    {
      assert events[deletable..][1..] == events[deletable + 1..];
      deletable := deletable + 1;
    }
  }

  /** The audit branch of the deletion run: workspace by workspace, prefix by prefix. */
  class AuditStore {
    var log: Log

    constructor ()
      ensures log == map[]
    {
      log := map[];
    }

    method DeleteEvents(ids: set<Id>, workspaces: seq<Id>, done: nat)
      requires done <= |workspaces|
      modifies this
      ensures log == PrunedAll(old(log), ids, workspaces[..done])
    {
      for i := 0 to done
        invariant log == PrunedAll(old(log), ids, workspaces[..i])
      {
        var w := workspaces[i];
        var events := ChainOf(log, w).events;
        var deletable := CountDeletable(events, ids);
        assert workspaces[..i + 1][..i] == workspaces[..i];
        if deletable > 0 {
          var last := events[deletable - 1];
          log := log[w := Chain(Some(Anchor(last.sequence, last.eventHash)), events[deletable..])];
        } else {
          log := log[w := ChainOf(log, w)];  // a workspace without events keeps its empty chain
        }
      }
    }
  }

  // ---- What verification detects

  /** The columns of an event as they are hashed, separated by bars. */
  function Joined(columns: seq<string>): string {
    if columns == [] then ""
    else if |columns| == 1 then columns[0]
    else columns[0] + ("|" + Joined(columns[1..]))
  }

  predicate Barless(s: string) {
    forall c <- s :: c != '|'
  }

  lemma FirstBar(x: string, a: string)
    requires Barless(x)
    ensures var s := x + ("|" + a);
      && s[|x|] == '|' && (forall k :: 0 <= k < |x| ==> s[k] != '|') && s[..|x|] == x && s[|x| + 1..] == a
  {
    var s := x + ("|" + a);
    forall k | 0 <= k < |x| ensures s[k] != '|' {
      assert s[k] == x[k] && x[k] in x;
    }
  }

  lemma FirstColumn(x: string, a: string, y: string, b: string)
    requires Barless(x) && Barless(y) && x + ("|" + a) == y + ("|" + b)
    ensures x == y && a == b
  {
    FirstBar(x, a);
    FirstBar(y, b);
    assert |x| == |y|;
  }

  /** The joined text determines the columns as far as all but the last are free of bars. */
  lemma {:induction false} JoinedDetermines(xs: seq<string>, ys: seq<string>)
    requires |xs| == |ys| && Joined(xs) == Joined(ys)
    requires forall i :: 0 <= i < |xs| - 1 ==> Barless(xs[i]) && Barless(ys[i])
    ensures xs == ys
    decreases |xs|
  {
    if |xs| > 1 {
      FirstColumn(xs[0], Joined(xs[1..]), ys[0], Joined(ys[1..]));
      JoinedDetermines(xs[1..], ys[1..]);
      assert xs == [xs[0]] + xs[1..] && ys == [ys[0]] + ys[1..];
    }
  }

  function Bars(s: string): nat {
    if s == "" then 0 else (if s[0] == '|' then 1 else 0) + Bars(s[1..])
  }

  function AllBars(columns: seq<string>): nat {
    if columns == [] then 0 else Bars(columns[0]) + AllBars(columns[1..])
  }

  lemma {:induction false} BarsConcat(a: string, b: string)
    ensures Bars(a + b) == Bars(a) + Bars(b)
    decreases |a|
  {
    if a == "" {
      assert a + b == b;
    } else {
      assert (a + b)[1..] == a[1..] + b;
      BarsConcat(a[1..], b);
    }
  }

  lemma {:induction false} NoBars(s: string)
    ensures Bars(s) == 0 <==> Barless(s)
    decreases |s|
  {
    if s != "" {
      NoBars(s[1..]);
      assert s[0] in s && forall c <- s[1..] :: c in s;
      assert forall c <- s :: c == s[0] || c in s[1..];
    }
  }

  lemma {:induction false} AllBarless(columns: seq<string>)
    ensures AllBars(columns) == 0 <==> forall i :: 0 <= i < |columns| ==> Barless(columns[i])
    decreases |columns|
  {
    if columns != [] {
      NoBars(columns[0]);
      AllBarless(columns[1..]);
      assert forall i :: 0 < i < |columns| ==> columns[i] == columns[1..][i - 1];
      assert forall i :: 0 <= i < |columns| - 1 ==> columns[1..][i] == columns[i + 1];
    }
  }

  lemma {:induction false} JoinedBars(columns: seq<string>)
    requires columns != []
    ensures Bars(Joined(columns)) == AllBars(columns) + |columns| - 1
    decreases |columns|
  {
    if |columns| > 1 {
      JoinedBars(columns[1..]);
      BarsConcat(columns[0], "|" + Joined(columns[1..]));
      BarsConcat("|", Joined(columns[1..]));
      assert "|"[1..] == "";
    }
  }

  /** Other columns of the same number that are hashed as the same text. */
  predicate Mistaken(xs: seq<string>, ys: seq<string>) {
    |ys| == |xs| && ys != xs && Joined(ys) == Joined(xs)
  }

  /** A bar at the end of a column can as well stand at the start of the next. */
  lemma BarMovesUnnoticed(a: string, b: string, c: string, rest: seq<string>)
    ensures Mistaken([a + ("|" + b), c] + rest, [a, b + ("|" + c)] + rest)
  {
    var xs, ys := [a + ("|" + b), c] + rest, [a, b + ("|" + c)] + rest;
    assert xs[1..] == [c] + rest && ys[1..] == [b + ("|" + c)] + rest;
    assert |xs[0]| > |ys[0]|;
    if rest == [] {
      assert (a + ("|" + b)) + ("|" + c) == a + ("|" + (b + ("|" + c)));
    } else {
      assert xs[1..][1..] == rest && ys[1..][1..] == rest;
      var tail := "|" + Joined(rest);
      assert (a + ("|" + b)) + ("|" + (c + tail)) == a + ("|" + ((b + ("|" + c)) + tail));
    }
  }

  /** Of two or more columns, one of which holds a bar, another reading can be given. */
  lemma {:induction false} BarsMistake(xs: seq<string>, i: nat) returns (ys: seq<string>)
    requires |xs| > 1 && i < |xs| && !Barless(xs[i])
    ensures Mistaken(xs, ys)
    decreases |xs|
  {
    if i > 0 && |xs| > 2 {
      var rest := BarsMistake(xs[1..], i - 1);
      ys := [xs[0]] + rest;
      assert ys[1..] == rest && xs == [xs[0]] + xs[1..];
    } else {
      var k: nat :| k < |xs[i]| && xs[i][k] == '|';
      var a, b := xs[i][..k], xs[i][k + 1..];
      assert xs[i] == a + ("|" + b);
      if i == 0 {
        BarMovesUnnoticed(a, b, xs[1], xs[2..]);
        ys := [a, b + ("|" + xs[1])] + xs[2..];
        assert xs == [a + ("|" + b), xs[1]] + xs[2..];
      } else {
        BarMovesUnnoticed(xs[0], a, b, []);
        ys := [xs[0] + ("|" + a), b];
        assert xs == [xs[0], a + ("|" + b)] + [] && ys == [xs[0] + ("|" + a), b] + [];
      }
    }
  }

  /** The joined text stands for these columns and no others, exactly when there is one column or none of
      them holds a bar. */
  lemma JoinedDeterminesIff(xs: seq<string>)
    ensures (forall ys :: !Mistaken(xs, ys)) <==> |xs| <= 1 || forall i :: 0 <= i < |xs| ==> Barless(xs[i])
  {
    if |xs| > 1 && exists i :: 0 <= i < |xs| && !Barless(xs[i]) {
      var i :| 0 <= i < |xs| && !Barless(xs[i]);
      var ys := BarsMistake(xs, i);
    } else {
      forall ys ensures !Mistaken(xs, ys) {
        if Mistaken(xs, ys) { BarlessIsNotMistaken(xs, ys); }
      }
    }
  }

  lemma BarlessIsNotMistaken(xs: seq<string>, ys: seq<string>)
    requires |xs| <= 1 || forall i :: 0 <= i < |xs| ==> Barless(xs[i])
    ensures !Mistaken(xs, ys)
  {
    if Mistaken(xs, ys) && |xs| > 1 {
      JoinedBars(xs);
      JoinedBars(ys);
      AllBarless(xs);
      AllBarless(ys);
      JoinedDetermines(xs, ys);
    }
  }

  /** No two different inputs share a digest. */
  ghost predicate CollisionFree(digest: Digest) {
    forall w, s, p, i, x, w', s', p', i', x' ::
      digest(w, s, p, i, x) == digest(w', s', p', i', x') ==> w == w' && s == s' && p == p' && i == i' && x == x'
  }

  lemma {:induction false} ContinuesPrefix(
    digest: Digest, workspace: Id, sequence: int, hash: Option<string>, events: seq<Event>)
    requires Continues(digest, workspace, sequence, hash, events) && events != []
    ensures var n := |events| - 1;
      && Continues(digest, workspace, sequence, hash, events[..n])
      && events[n].eventHash == Expected(digest, workspace, events[n])
      && events[n].sequence == sequence + 1 + n
      && events[n].previousHash == (if n == 0 then hash else Some(events[n - 1].eventHash))
    decreases |events|
  {
    if |events| > 1 {
      ContinuesPrefix(digest, workspace, events[0].sequence, Some(events[0].eventHash), events[1..]);
      assert events[..|events| - 1][1..] == events[1..][..|events| - 2];
    }
  }

  /** With a collision-free digest, two verifying chains behind one anchor that end in the same hash are
      the same chain: no event can be reordered or dropped unnoticed, nor its joined columns altered.
      What is hashed is the joined text, so a bar that moves between two adjacent columns of the payload
      is not an alteration in this sense. */
  lemma {:induction false} SameTipSameChain(digest: Digest, workspace: Id, c: Chain, d: Chain)
    requires CollisionFree(digest)
    requires Intact(digest, workspace, c) && Intact(digest, workspace, d) && c.anchor == d.anchor
    requires c.events != [] && d.events != [] && Tip(c).value.eventHash == Tip(d).value.eventHash
    ensures c == d
    decreases |c.events|
  {
    var s, h := HeadSequence(c.anchor), HeadHash(c.anchor);
    ContinuesPrefix(digest, workspace, s, h, c.events);
    ContinuesPrefix(digest, workspace, s, h, d.events);
    var m, n := |c.events| - 1, |d.events| - 1;
    var e, f := c.events[m], d.events[n];
    assert m == n && e.id == f.id && e.payload == f.payload;
    if m > 0 {
      ContinuesPrefix(digest, workspace, s, h, c.events[..m]);
      ContinuesPrefix(digest, workspace, s, h, d.events[..m]);
      SameTipSameChain(digest, workspace, Chain(c.anchor, c.events[..m]), Chain(d.anchor, d.events[..m]));
    }
    assert c.events == c.events[..m] + [e] && d.events == d.events[..m] + [f];
  }
}
