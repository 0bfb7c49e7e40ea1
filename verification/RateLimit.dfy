/** The fixed-window rate limiter, one bucket per client key; instants in milliseconds. */
module RateLimit {
  import opened Basics
  import opened Wrappers

  type Key = int

  datatype Bucket = Bucket(count: nat, resetAt: int)
  datatype Reply = Reply(allowed: bool, remaining: int, resetAt: int)

  // ---- One key: what a request does to its bucket, and whether it is let through

  predicate Admits(b: Option<Bucket>, limit: int, now: int) {
    b.None? || b.value.resetAt <= now || b.value.count < limit
  }

  function After(b: Option<Bucket>, limit: int, window: int, now: int): Bucket {
    if b.None? || b.value.resetAt <= now then Bucket(1, now + window)
    else if b.value.count >= limit then b.value
    else b.value.(count := b.value.count + 1)
  }

  class Limiter {
    var buckets: map<Key, Bucket>

    constructor ()
      ensures buckets == map[]
    {
      buckets := map[];
    }

    ghost function BucketOf(key: Key): Option<Bucket>
      reads this
    {
      if key in buckets then Some(buckets[key]) else None
    }

    /** Opens a window, counts within the open one, or refuses; never touches another key's bucket. */
    method ConsumeRateLimit(key: Key, limit: int, windowSeconds: int, now: int) returns (r: Reply)
      modifies this
      ensures r.allowed == Admits(old(BucketOf(key)), limit, now)
      ensures buckets == old(buckets)[key := After(old(BucketOf(key)), limit, windowSeconds * 1000, now)]
      ensures r.resetAt == buckets[key].resetAt
      ensures limit > 0 ==> r.remaining == limit - if r.allowed then buckets[key].count else limit
      ensures limit <= 0 ==> r.remaining == if r.allowed then limit - 1 else 0
    {
      var resetAt := now + windowSeconds * 1000;
      if key !in buckets {
        buckets := buckets[key := Bucket(1, resetAt)];
        return Reply(true, limit - 1, resetAt);
      }
      var existing := buckets[key];
      if existing.resetAt <= now {
        buckets := buckets[key := Bucket(1, resetAt)];
        return Reply(true, limit - 1, resetAt);
      }
      if existing.count >= limit {
        assert buckets[key := existing] == buckets;
        return Reply(false, 0, existing.resetAt);
      }
      var updated := existing.(count := existing.count + 1);
      buckets := buckets[key := updated];
      r := Reply(true, Max(0, limit - updated.count), existing.resetAt);
    }
  }

  // ---- Traces of one key, at whatever instants the clock gives

  function Final(b: Option<Bucket>, limit: int, window: int, times: seq<int>): Option<Bucket>
    decreases |times|
  {
    if times == [] then b else Final(Some(After(b, limit, window, times[0])), limit, window, times[1..])
  }

  /** Requests let through at instants from `lo` up to but not including `hi`. */
  function AllowedIn(b: Option<Bucket>, limit: int, window: int, times: seq<int>, lo: int, hi: int): nat
    decreases |times|
  {
    if times == [] then 0
    else
      (if Admits(b, limit, times[0]) && lo <= times[0] < hi then 1 else 0)
      + AllowedIn(Some(After(b, limit, window, times[0])), limit, window, times[1..], lo, hi)
  }

  /** Requests let through in the window that ends at `resetAt`. */
  function AllowedUntil(b: Option<Bucket>, limit: int, window: int, times: seq<int>, resetAt: int): nat
    decreases |times|
  {
    if times == [] then 0
    else
      var a := After(b, limit, window, times[0]);
      (if Admits(b, limit, times[0]) && a.resetAt == resetAt then 1 else 0)
      + AllowedUntil(Some(a), limit, window, times[1..], resetAt)
  }

  predicate Plausible(b: Option<Bucket>, limit: int) {
    b.Some? ==> 1 <= b.value.count <= Max(limit, 1)
  }

  /** What the window that ends at `resetAt` may still let through. */
  function Left(b: Option<Bucket>, limit: int, resetAt: int): int {
    if b.None? || b.value.resetAt < resetAt then Max(limit, 1)
    else if b.value.resetAt == resetAt then Max(limit, 1) - b.value.count
    else 0
  }

  /** No window lets through more than the limit, or one if the limit is not positive. */
  lemma {:induction false} WindowKeepsLimit(b: Option<Bucket>, limit: int, window: int, times: seq<int>, resetAt: int)
    requires Plausible(b, limit) && window > 0
    ensures AllowedUntil(b, limit, window, times, resetAt) <= Left(b, limit, resetAt)
    decreases |times|
  {
    if times != [] {
      WindowKeepsLimit(Some(After(b, limit, window, times[0])), limit, window, times[1..], resetAt);
    }
  }

  /** A new window starts no earlier than the previous one ends: windows never overlap. */
  lemma {:induction false} WindowsAreDisjoint(b: Bucket, limit: int, window: int, times: seq<int>)
    requires window > 0
    ensures var f := Final(Some(b), limit, window, times);
      f.Some? && (f.value.resetAt == b.resetAt || f.value.resetAt - window >= b.resetAt)
    decreases |times|
  {
    if times != [] { WindowsAreDisjoint(After(Some(b), limit, window, times[0]), limit, window, times[1..]); }
  }

  lemma {:induction false} FinalConcat(
    b: Option<Bucket>, limit: int, window: int, xs: seq<int>, ys: seq<int>, lo: int, hi: int)
    ensures Final(b, limit, window, xs + ys) == Final(Final(b, limit, window, xs), limit, window, ys)
    ensures AllowedIn(b, limit, window, xs + ys, lo, hi)
      == AllowedIn(b, limit, window, xs, lo, hi) + AllowedIn(Final(b, limit, window, xs), limit, window, ys, lo, hi)
    decreases |xs|
  {
    if xs == [] {
      assert xs + ys == ys;
    } else {
      assert (xs + ys)[0] == xs[0] && (xs + ys)[1..] == xs[1..] + ys;
      FinalConcat(Some(After(b, limit, window, xs[0])), limit, window, xs[1..], ys, lo, hi);
    }
  }

  /** The count in a bucket is the number of requests its window has let through, so a request is
      refused only when its window has already let through the limit. */
  lemma {:induction false} CountIsHonest(b: Option<Bucket>, limit: int, window: int, times: seq<int>)
    requires window > 0 && times != []
    ensures var f := Final(b, limit, window, times);
      f.Some? && f.value.count == AllowedUntil(b, limit, window, times, f.value.resetAt)
        + if b.Some? && b.value.resetAt == f.value.resetAt then b.value.count else 0
    decreases |times|
  {
    var a := After(b, limit, window, times[0]);
    if |times| > 1 {
      CountIsHonest(Some(a), limit, window, times[1..]);
      WindowsAreDisjoint(a, limit, window, times[1..]);
    }
  }

  // ---- The windows themselves, without buckets

  /** The request that opened the window of the k-th: the k-th itself where the window before it is over. */
  function Opener(times: seq<int>, window: int, k: nat): (o: nat)
    requires k < |times|
    ensures o <= k
  {
    if k == 0 then 0
    else
      var o := Opener(times, window, k - 1);
      if times[k] - times[o] >= window then k else o
  }

  lemma {:induction false} BucketAfter(limit: int, window: int, times: seq<int>, k: nat)
    requires k < |times|
    ensures var o, b := Opener(times, window, k), Final(None, limit, window, times[..k + 1]);
      && b.Some? && b.value.resetAt == times[o] + window
      && b.value.count == if k - o < Max(limit, 1) then k - o + 1 else Max(limit, 1)
    decreases k
  {
    assert times[..k + 1] == times[..k] + [times[k]] && [times[k]][1..] == [];
    FinalConcat(None, limit, window, times[..k], [times[k]], 0, 0);
    if k > 0 {
      BucketAfter(limit, window, times, k - 1);
    } else {
      assert times[..0] == [];
    }
  }

  /** Of each window exactly the first requests are let through, as many as the limit, or one if the limit
      is not positive; later ones are refused until a request comes when the window is over. */
  lemma AdmittedIff(limit: int, window: int, times: seq<int>, k: nat)
    requires k < |times|
    ensures Admits(Final(None, limit, window, times[..k]), limit, times[k])
      <==> k - Opener(times, window, k) < Max(limit, 1)
  {
    if k > 0 {
      BucketAfter(limit, window, times, k - 1);
      assert times[..k] == times[..k - 1 + 1];
    } else {
      assert times[..0] == [];
    }
  }

  /** What may still be let through from `lo` on for the length of one window.  A window that was open
      before `lo` has spent at least its opening request outside. */
  function Budget(b: Option<Bucket>, limit: int, window: int, lo: int): int {
    var m := Max(limit, 1);
    if b.None? || b.value.resetAt <= lo then 2 * m - 1
    else if b.value.resetAt - window >= lo then m - b.value.count
    else 2 * m - b.value.count
  }

  predicate NonDecreasing(times: seq<int>) {
    forall i, j :: 0 <= i < j < |times| ==> times[i] <= times[j]
  }

  lemma {:induction false} NothingAfterwards(
    b: Option<Bucket>, limit: int, window: int, times: seq<int>, lo: int, hi: int)
    requires forall t <- times :: hi <= t
    ensures AllowedIn(b, limit, window, times, lo, hi) == 0
    decreases |times|
  {
    if times != [] {
      assert times[0] in times && forall t <- times[1..] :: t in times;
      NothingAfterwards(Some(After(b, limit, window, times[0])), limit, window, times[1..], lo, hi);
    }
  }

  lemma {:induction false} BudgetSuffices(b: Option<Bucket>, limit: int, window: int, times: seq<int>, lo: int)
    requires Plausible(b, limit) && window > 0 && NonDecreasing(times)
    ensures AllowedIn(b, limit, window, times, lo, lo + window) <= Budget(b, limit, window, lo)
    decreases |times|
  {
    if times != [] && times[0] >= lo + window {
      forall t <- times ensures lo + window <= t {
        var i :| 0 <= i < |times| && times[i] == t;
      }
      NothingAfterwards(b, limit, window, times, lo, lo + window);
    } else if times != [] {
      BudgetSuffices(Some(After(b, limit, window, times[0])), limit, window, times[1..], lo);
    }
  }

  /** While the clock does not go back, an interval as long as a window lets through at most one less than
      twice the limit. */
  lemma IntervalKeepsTwice(limit: int, window: int, times: seq<int>, lo: int)
    requires window > 0 && NonDecreasing(times)
    ensures AllowedIn(None, limit, window, times, lo, lo + window) <= 2 * Max(limit, 1) - 1
  {
    BudgetSuffices(None, limit, window, times, lo);
  }

  function Repeat(t: int, n: nat): (r: seq<int>)
    ensures |r| == n
  {
    if n == 0 then [] else [t] + Repeat(t, n - 1)
  }

  lemma {:induction false} RepeatsFit(b: Bucket, limit: int, window: int, t: int, n: nat, lo: int, hi: int)
    requires t < b.resetAt && b.count + n <= limit && lo <= t < hi
    ensures AllowedIn(Some(b), limit, window, Repeat(t, n), lo, hi) == n
    ensures Final(Some(b), limit, window, Repeat(t, n)) == Some(b.(count := b.count + n))
    decreases n
  {
    if n > 0 {
      assert Repeat(t, n)[1..] == Repeat(t, n - 1);
      RepeatsFit(b.(count := b.count + 1), limit, window, t, n - 1, lo, hi);
    }
  }

  /** ... and that bound is met: the rest of one window just before it ends, then all of the next. */
  lemma IntervalBoundIsMet(limit: int, window: int)
    requires limit >= 1 && window >= 2
    ensures var times := [0] + Repeat(window - 1, limit - 1) + ([window] + Repeat(window, limit - 1));
      AllowedIn(None, limit, window, times, window - 1, 2 * window - 1) == 2 * limit - 1
  {
    var lo, hi, n := window - 1, 2 * window - 1, limit - 1;
    var before, after := [0] + Repeat(window - 1, n), [window] + Repeat(window, n);
    FinalConcat(None, limit, window, before, after, lo, hi);
    assert before[1..] == Repeat(window - 1, n) && after[1..] == Repeat(window, n);
    RepeatsFit(Bucket(1, window), limit, window, window - 1, n, lo, hi);
    RepeatsFit(Bucket(1, 2 * window), limit, window, window, n, lo, hi);
  }

  // ---- Keys do not interfere

  datatype Request = Request(key: Key, now: int)

  function Lookup(buckets: map<Key, Bucket>, key: Key): Option<Bucket> {
    if key in buckets then Some(buckets[key]) else None
  }

  function Serve(buckets: map<Key, Bucket>, limit: int, window: int, requests: seq<Request>): map<Key, Bucket>
    decreases |requests|
  {
    if requests == [] then buckets
    else
      var q := requests[0];
      Serve(buckets[q.key := After(Lookup(buckets, q.key), limit, window, q.now)], limit, window, requests[1..])
  }

  function TimesOf(requests: seq<Request>, key: Key): seq<int> {
    if requests == [] then []
    else if requests[0].key == key then [requests[0].now] + TimesOf(requests[1..], key)
    else TimesOf(requests[1..], key)
  }

  /** Among requests of many keys, each key is treated as if its own were the only ones. */
  lemma {:induction false} KeysAreIndependent(
    buckets: map<Key, Bucket>, limit: int, window: int, requests: seq<Request>, key: Key)
    ensures Lookup(Serve(buckets, limit, window, requests), key)
      == Final(Lookup(buckets, key), limit, window, TimesOf(requests, key))
    decreases |requests|
  {
    if requests != [] {
      var q := requests[0];
      var next := buckets[q.key := After(Lookup(buckets, q.key), limit, window, q.now)];
      KeysAreIndependent(next, limit, window, requests[1..], key);
      if q.key == key {
        assert TimesOf(requests, key)[0] == q.now && TimesOf(requests, key)[1..] == TimesOf(requests[1..], key);
      }
    }
  }
}
