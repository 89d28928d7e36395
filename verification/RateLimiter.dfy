/** The fixed-window limiter for the public sign-in endpoints: one shared, purging map of
    buckets. Instants are integers of a monotone clock. */
module RateLimiter {
  import opened Bytes

  datatype Bucket = Bucket(count: nat, resetAt: int)

  datatype Call = Call(key: string, at: int)

  datatype Limits = Limits(maxRequests: nat, window: nat)

  // ---------- One check on the shared map ----------

  function Purge(buckets: map<string, Bucket>, now: int): map<string, Bucket> {
    map k | k in buckets && buckets[k].resetAt > now :: buckets[k]
  }

  function CheckShared(limits: Limits, buckets: map<string, Bucket>, call: Call): (map<string, Bucket>, bool) {
    var kept := Purge(buckets, call.at);
    var entry := if call.key in kept then kept[call.key] else Bucket(0, call.at + limits.window);
    var bucket := if entry.resetAt <= call.at then Bucket(0, call.at + limits.window) else entry;
    if bucket.count >= limits.maxRequests then (kept[call.key := bucket], false)
    else (kept[call.key := bucket.(count := bucket.count + 1)], true)
  }

  class RateLimiter {
    const maxRequests: nat
    const window: nat
    var buckets: map<string, Bucket>

    constructor (maxRequests: nat, window: nat)
      ensures this.maxRequests == maxRequests && this.window == window && buckets == map[]
    {
      this.maxRequests, this.window := maxRequests, window;
      buckets := map[];
    }

    method Check(key: string, now: int) returns (allowed: bool)
      modifies this
      ensures (buckets, allowed) == CheckShared(Limits(maxRequests, window), old(buckets), Call(key, now))
    {
      buckets := Purge(buckets, now);
      if key !in buckets {
        buckets := buckets[key := Bucket(0, now + window)];
      }
      if buckets[key].resetAt <= now {
        buckets := buckets[key := Bucket(0, now + window)];
      }
      assert buckets == Purge(old(buckets), now)[key := buckets[key]];
      if buckets[key].count >= maxRequests {
        return false;
      }
      ghost var counted := buckets[key].(count := buckets[key].count + 1);
      buckets := buckets[key := buckets[key].(count := buckets[key].count + 1)];
      assert buckets == Purge(old(buckets), now)[key := counted];
      return true;
    }
  }

  // ---------- Runs: the shared map, and one limiter per key ----------

  function Decisions(limits: Limits, buckets: map<string, Bucket>, calls: seq<Call>): (r: seq<bool>)
    ensures |r| == |calls|
    decreases calls
  {
    if calls == [] then []
    else
      var (next, ok) := CheckShared(limits, buckets, calls[0]);
      [ok] + Decisions(limits, next, calls[1..])
  }

  /** A limiter that serves a single key and never forgets its bucket. */
  function CheckSolo(limits: Limits, bucket: Option<Bucket>, at: int): (Bucket, bool) {
    var b := if bucket.None? || bucket.value.resetAt <= at then Bucket(0, at + limits.window) else bucket.value;
    if b.count >= limits.maxRequests then (b, false) else (b.(count := b.count + 1), true)
  }

  function SoloDecisions(limits: Limits, bucket: Option<Bucket>, times: seq<int>): (r: seq<bool>)
    ensures |r| == |times|
    decreases times
  {
    if times == [] then []
    else
      var (next, ok) := CheckSolo(limits, bucket, times[0]);
      [ok] + SoloDecisions(limits, Some(next), times[1..])
  }

  function TimesOf(key: string, calls: seq<Call>): seq<int> {
    if calls == [] then []
    else (if calls[0].key == key then [calls[0].at] else []) + TimesOf(key, calls[1..])
  }

  /** The decisions of the calls with this key. */
  function DecisionsOf(key: string, calls: seq<Call>, decisions: seq<bool>): (r: seq<bool>)
    requires |calls| == |decisions|
    ensures |r| == |TimesOf(key, calls)|
  {
    if calls == [] then []
    else (if calls[0].key == key then [decisions[0]] else []) + DecisionsOf(key, calls[1..], decisions[1..])
  }

  predicate MonotoneCalls(calls: seq<Call>, from: int)
    decreases calls
  {
    calls == [] || (from <= calls[0].at && MonotoneCalls(calls[1..], calls[0].at))
  }

  /** The map holds the key's bucket, or has dropped one that has expired by `now`. */
  predicate Agrees(buckets: map<string, Bucket>, key: string, bucket: Option<Bucket>, now: int) {
    if key in buckets then bucket == Some(buckets[key])
    else bucket.None? || bucket.value.resetAt <= now
  }

  /** Sharing and purging do not show: every call is decided as by a limiter of its own key. */
  lemma {:induction false} SharedIsIndependent(limits: Limits, buckets: map<string, Bucket>, calls: seq<Call>,
                                               key: string, bucket: Option<Bucket>, from: int)
    requires MonotoneCalls(calls, from) && Agrees(buckets, key, bucket, from)
    ensures DecisionsOf(key, calls, Decisions(limits, buckets, calls)) ==
            SoloDecisions(limits, bucket, TimesOf(key, calls))
    decreases calls
  {
    if calls != [] {
      var c := calls[0];
      var (next, ok) := CheckShared(limits, buckets, c);
      assert Decisions(limits, buckets, calls)[1..] == Decisions(limits, next, calls[1..]);
      if c.key == key {
        var (b, solo) := CheckSolo(limits, bucket, c.at);
        assert ok == solo && next[key] == b;
        SharedIsIndependent(limits, next, calls[1..], key, Some(b), c.at);
        assert TimesOf(key, calls) == [c.at] + TimesOf(key, calls[1..]);
        assert TimesOf(key, calls)[1..] == TimesOf(key, calls[1..]);
      } else {
        SharedIsIndependent(limits, next, calls[1..], key, bucket, c.at);
        assert TimesOf(key, calls) == TimesOf(key, calls[1..]);
      }
    }
  }

  // ---------- Which requests those are ----------

  /** The call that opened the window call j falls into: the first call, and then each call at or
      after its end opens the next one. Only the times decide. */
  function Opening(window: nat, times: seq<int>, j: nat): (o: nat)
    requires j < |times|
    ensures o <= j
  {
    if j == 0 then 0
    else
      var o := Opening(window, times, j - 1);
      if times[j] >= times[o] + window then j else o
  }

  /** The bucket a key's calls leave. */
  function BucketAfter(limits: Limits, bucket: Option<Bucket>, times: seq<int>): Option<Bucket>
    decreases times
  {
    if times == [] then bucket
    else BucketAfter(limits, Some(CheckSolo(limits, bucket, times[0]).0), times[1..])
  }

  lemma {:induction false} SoloSnoc(limits: Limits, bucket: Option<Bucket>, times: seq<int>, t: int)
    ensures var before := BucketAfter(limits, bucket, times);
      && BucketAfter(limits, bucket, times + [t]) == Some(CheckSolo(limits, before, t).0)
      && SoloDecisions(limits, bucket, times + [t]) ==
         SoloDecisions(limits, bucket, times) + [CheckSolo(limits, before, t).1]
    decreases times
  {
    if times == [] {
      assert times + [t] == [t] && [t][1..] == [];
    } else {
      assert (times + [t])[1..] == times[1..] + [t];
      SoloSnoc(limits, Some(CheckSolo(limits, bucket, times[0]).0), times[1..], t);
    }
  }

  lemma {:induction false} OpeningPrefix(window: nat, times: seq<int>, n: nat, j: nat)
    requires j < n <= |times|
    ensures Opening(window, times[..n], j) == Opening(window, times, j)
    decreases j
  {
    if j > 0 {
      OpeningPrefix(window, times, n, j - 1);
    }
  }

  /** After call j its window is open, with the calls since its opening counted up to the limit. */
  lemma {:induction false} OpenWindow(limits: Limits, times: seq<int>, j: nat)
    requires j < |times|
    ensures var o := Opening(limits.window, times, j);
      && BucketAfter(limits, None, times[..j + 1]) ==
         Some(Bucket(if j - o + 1 <= limits.maxRequests then j - o + 1 else limits.maxRequests,
                     times[o] + limits.window))
      && (SoloDecisions(limits, None, times[..j + 1])[j] <==> j - o < limits.maxRequests)
    decreases j
  {
    assert times[..j + 1] == times[..j] + [times[j]];
    SoloSnoc(limits, None, times[..j], times[j]);
    if j == 0 {
      assert times[..0] == [];
    } else {
      OpenWindow(limits, times, j - 1);
    }
  }

  lemma {:induction false} DecisionsPrefix(limits: Limits, bucket: Option<Bucket>, times: seq<int>, n: nat, j: nat)
    requires j < n <= |times|
    ensures SoloDecisions(limits, bucket, times[..n])[j] == SoloDecisions(limits, bucket, times)[j]
    decreases times
  {
    if j > 0 {
      assert times[..n][1..] == times[1..][..n - 1];
      DecisionsPrefix(limits, Some(CheckSolo(limits, bucket, times[0]).0), times[1..], n - 1, j - 1);
    }
  }

  /** On the shared map, whatever other keys do: call j of a key is accepted exactly when fewer than
      the limit of the key's calls came since the one that opened its window. */
  lemma {:induction false} AcceptedExactlyWhen(limits: Limits, calls: seq<Call>, key: string, from: int, j: nat)
    requires MonotoneCalls(calls, from) && j < |TimesOf(key, calls)|
    ensures DecisionsOf(key, calls, Decisions(limits, map[], calls))[j]
            <==> j - Opening(limits.window, TimesOf(key, calls), j) < limits.maxRequests
  {
    var times := TimesOf(key, calls);
    SharedIsIndependent(limits, map[], calls, key, None, from);
    OpenWindow(limits, times, j);
    DecisionsPrefix(limits, None, times, j + 1, j);
  }

  /** So with a positive limit a call that opens a window is accepted, however many were rejected
      before it. */
  lemma {:induction false} NextWindowAccepts(limits: Limits, calls: seq<Call>, key: string, from: int, i: nat, j: nat)
    requires MonotoneCalls(calls, from) && i < j < |TimesOf(key, calls)| && limits.maxRequests > 0
    requires Opening(limits.window, TimesOf(key, calls), j - 1) == i
    requires TimesOf(key, calls)[j] >= TimesOf(key, calls)[i] + limits.window
    ensures DecisionsOf(key, calls, Decisions(limits, map[], calls))[j]
  {
    AcceptedExactlyWhen(limits, calls, key, from, j);
  }

  lemma {:induction false} PurgeTwice(buckets: map<string, Bucket>, now: int, later: int)
    requires now <= later
    ensures Purge(Purge(buckets, now), later) == Purge(buckets, later)
  {
  }

  /** Decisions depend only on the buckets that have not expired. */
  lemma {:induction false} ExpiredDoNotMatter(limits: Limits, a: map<string, Bucket>, b: map<string, Bucket>,
                                              calls: seq<Call>, from: int)
    requires MonotoneCalls(calls, from) && Purge(a, from) == Purge(b, from)
    ensures Decisions(limits, a, calls) == Decisions(limits, b, calls)
  {
    if calls != [] {
      PurgeTwice(a, from, calls[0].at);
      PurgeTwice(b, from, calls[0].at);
      assert CheckShared(limits, a, calls[0]) == CheckShared(limits, b, calls[0]);
    }
  }

  lemma {:induction false} ZeroLimitRejects(limits: Limits, buckets: map<string, Bucket>, calls: seq<Call>)
    requires limits.maxRequests == 0
    ensures forall k | 0 <= k < |calls| :: !Decisions(limits, buckets, calls)[k]
    decreases calls
  {
    if calls != [] {
      ZeroLimitRejects(limits, CheckShared(limits, buckets, calls[0]).0, calls[1..]);
    }
  }

  /** Leaving out a rejected call changes no other decision, for its own key or any other. */
  lemma {:induction false} RejectedLeavesNoTrace(limits: Limits, buckets: map<string, Bucket>, calls: seq<Call>,
                                                 from: int, i: nat)
    requires MonotoneCalls(calls, from) && i < |calls| && !Decisions(limits, buckets, calls)[i]
    ensures var d := Decisions(limits, buckets, calls);
      Decisions(limits, buckets, calls[..i] + calls[i + 1..]) == d[..i] + d[i + 1..]
    decreases calls
  {
    var c, rest := calls[0], calls[1..];
    var (next, ok) := CheckShared(limits, buckets, c);
    var without := calls[..i] + calls[i + 1..];
    if limits.maxRequests == 0 {
      ZeroLimitRejects(limits, buckets, calls);
      ZeroLimitRejects(limits, buckets, without);
    } else if i == 0 {
      hide CheckShared, Purge;
      assert without == rest;
      RejectedKeepsBuckets(limits, buckets, c);
      ExpiredDoNotMatter(limits, next, buckets, rest, c.at);
    } else {
      hide CheckShared, Purge, Decisions;
      DecisionsCons(limits, buckets, c, rest);
      assert calls == [c] + rest;
      RejectedLeavesNoTrace(limits, next, rest, c.at, i - 1);
      LeaveOut(c, rest, i);
      LeaveOut(ok, Decisions(limits, next, rest), i);
      DecisionsCons(limits, buckets, c, rest[..i - 1] + rest[i..]);
    }
  }

  lemma {:induction false} DecisionsCons(limits: Limits, buckets: map<string, Bucket>, c: Call, calls: seq<Call>)
    ensures var (next, ok) := CheckShared(limits, buckets, c);
      Decisions(limits, buckets, [c] + calls) == [ok] + Decisions(limits, next, calls)
  {
    hide CheckShared;
    assert ([c] + calls)[1..] == calls;
  }

  lemma {:induction false} LeaveOut<T>(x: T, s: seq<T>, i: nat)
    requires 0 < i <= |s|
    ensures ([x] + s)[..i] + ([x] + s)[i + 1..] == [x] + (s[..i - 1] + s[i..])
  {
    assert ([x] + s)[..i] == [x] + s[..i - 1];
    assert ([x] + s)[i + 1..] == s[i..];
  }

  lemma {:induction false} RejectedKeepsBuckets(limits: Limits, buckets: map<string, Bucket>, c: Call)
    requires limits.maxRequests > 0 && !CheckShared(limits, buckets, c).1
    ensures Purge(CheckShared(limits, buckets, c).0, c.at) == Purge(buckets, c.at)
  {
  }

  // ---------- How many requests one window lets through ----------

  predicate MonotoneTimes(times: seq<int>, from: int)
    decreases times
  {
    times == [] || (from <= times[0] && MonotoneTimes(times[1..], times[0]))
  }

  /** Accepted calls with lo <= time <= hi. */
  function AcceptedIn(times: seq<int>, decisions: seq<bool>, lo: int, hi: int): nat
    requires |times| == |decisions|
  {
    if times == [] then 0
    else (if lo <= times[0] <= hi && decisions[0] then 1 else 0)
         + AcceptedIn(times[1..], decisions[1..], lo, hi)
  }

  /** How many more calls within [lo, lo + window] the current bucket can still let through:
      its own rest, plus one whole further bucket when it can expire inside. */
  function Budget(limits: Limits, bucket: Option<Bucket>, lo: int): int {
    if bucket.None? || bucket.value.resetAt <= lo then 2 * limits.maxRequests
    else if bucket.value.resetAt <= lo + limits.window then 2 * limits.maxRequests - bucket.value.count
    else limits.maxRequests - bucket.value.count
  }

  lemma {:induction false} WithinBudget(limits: Limits, bucket: Option<Bucket>, times: seq<int>, from: int, lo: int)
    requires limits.window > 0
    requires MonotoneTimes(times, from)
    requires bucket.Some? ==> bucket.value.count <= limits.maxRequests
    ensures AcceptedIn(times, SoloDecisions(limits, bucket, times), lo, lo + limits.window)
            <= Budget(limits, bucket, lo)
    decreases times
  {
    if times != [] {
      var t := times[0];
      var (next, ok) := CheckSolo(limits, bucket, t);
      assert SoloDecisions(limits, bucket, times)[1..] == SoloDecisions(limits, Some(next), times[1..]);
      if t > lo + limits.window {
        NothingAfter(times, SoloDecisions(limits, bucket, times), t, lo, lo + limits.window);
      } else {
        WithinBudget(limits, Some(next), times[1..], t, lo);
      }
    }
  }

  lemma {:induction false} NothingAfter(times: seq<int>, decisions: seq<bool>, from: int, lo: int, hi: int)
    requires |times| == |decisions| && MonotoneTimes(times, from) && from > hi
    ensures AcceptedIn(times, decisions, lo, hi) == 0
    decreases times
  {
    if times != [] {
      NothingAfter(times[1..], decisions[1..], times[0], lo, hi);
    }
  }

  lemma {:induction false} TimesAreMonotone(key: string, calls: seq<Call>, from: int)
    requires MonotoneCalls(calls, from)
    ensures MonotoneTimes(TimesOf(key, calls), from)
    decreases calls
  {
    if calls != [] {
      TimesAreMonotone(key, calls[1..], calls[0].at);
      if calls[0].key == key {
        assert TimesOf(key, calls)[1..] == TimesOf(key, calls[1..]);
      } else {
        assert TimesOf(key, calls) == TimesOf(key, calls[1..]);
        Weaken(TimesOf(key, calls[1..]), calls[0].at, from);
      }
    }
  }

  lemma {:induction false} Weaken(times: seq<int>, from: int, earlier: int)
    requires MonotoneTimes(times, from) && earlier <= from
    ensures MonotoneTimes(times, earlier)
  {
  }

  /** Accepted calls of a key in the closed interval of one window from `lo`, on a run from empty. */
  function AcceptedInWindow(limits: Limits, calls: seq<Call>, key: string, lo: int): nat {
    AcceptedIn(TimesOf(key, calls), DecisionsOf(key, calls, Decisions(limits, map[], calls)), lo, lo + limits.window)
  }

  /** Whatever other keys do, in any closed interval of one window length a key gets at most
      twice its limit through. */
  lemma {:induction false} AtMostTwicePerWindow(limits: Limits, calls: seq<Call>, key: string, from: int, lo: int)
    requires limits.window > 0 && MonotoneCalls(calls, from)
    ensures AcceptedInWindow(limits, calls, key, lo) <= 2 * limits.maxRequests
  {
    SharedIsIndependent(limits, map[], calls, key, None, from);
    TimesAreMonotone(key, calls, from);
    WithinBudget(limits, None, TimesOf(key, calls), from, lo);
  }

  /** With a zero-length window the count of earlier calls never matters: every call is accepted, or
      with a zero limit none. */
  lemma {:induction false} ZeroWindowIgnoresCount(limits: Limits, bucket: Option<Bucket>, times: seq<int>, from: int)
    requires limits.window == 0
    requires MonotoneTimes(times, from) && (bucket.Some? ==> bucket.value.resetAt <= from)
    ensures forall i | 0 <= i < |times| :: SoloDecisions(limits, bucket, times)[i] <==> limits.maxRequests > 0
    decreases times
  {
    if times != [] {
      var next := CheckSolo(limits, bucket, times[0]).0;
      ZeroWindowIgnoresCount(limits, Some(next), times[1..], times[0]);
    }
  }

  lemma {:induction false} ZeroLimitAcceptsNone(limits: Limits, bucket: Option<Bucket>, times: seq<int>,
                                                lo: int, hi: int)
    requires limits.maxRequests == 0
    ensures AcceptedIn(times, SoloDecisions(limits, bucket, times), lo, hi) == 0
    decreases times
  {
    if times != [] {
      var next := CheckSolo(limits, bucket, times[0]).0;
      ZeroLimitAcceptsNone(limits, Some(next), times[1..], lo, hi);
      assert SoloDecisions(limits, bucket, times)[1..] == SoloDecisions(limits, Some(next), times[1..]);
    }
  }

  lemma {:induction false} AllAccepted(times: seq<int>, decisions: seq<bool>, lo: int, hi: int)
    requires |times| == |decisions|
    requires forall i | 0 <= i < |times| :: lo <= times[i] <= hi && decisions[i]
    ensures AcceptedIn(times, decisions, lo, hi) == |times|
  {
    if times != [] {
      AllAccepted(times[1..], decisions[1..], lo, hi);
    }
  }

  /** n calls of one key at one instant. */
  function Burst(n: nat): seq<Call> {
    if n == 0 then [] else [Call("", 0)] + Burst(n - 1)
  }

  lemma {:induction false} BurstTimes(n: nat)
    ensures MonotoneCalls(Burst(n), 0) && TimesOf("", Burst(n)) == Repeat(n, 0)
  {
    if n > 0 {
      BurstTimes(n - 1);
      assert Burst(n)[1..] == Burst(n - 1);
    }
  }

  lemma {:induction false} RepeatAt(n: nat, t: int)
    ensures |Repeat(n, t)| == n && forall i | 0 <= i < n :: Repeat(n, t)[i] == t
  {
    if n > 0 {
      RepeatAt(n - 1, t);
    }
  }

  /** The bound, over all runs on a monotone clock, all keys and all intervals. */
  ghost predicate BoundHolds(limits: Limits) {
    forall calls, key, from, lo | MonotoneCalls(calls, from) ::
      AcceptedInWindow(limits, calls, key, lo) <= 2 * limits.maxRequests
  }

  lemma {:induction false} ZeroWindowBreaksBound(limits: Limits)
    requires limits.window == 0 && limits.maxRequests > 0
    ensures AcceptedInWindow(limits, Burst(2 * limits.maxRequests + 1), "", 0) == 2 * limits.maxRequests + 1
  {
    var n := 2 * limits.maxRequests + 1;
    BurstTimes(n);
    RepeatAt(n, 0);
    SharedIsIndependent(limits, map[], Burst(n), "", None, 0);
    TimesAreMonotone("", Burst(n), 0);
    ZeroWindowIgnoresCount(limits, None, Repeat(n, 0), 0);
    AllAccepted(Repeat(n, 0), SoloDecisions(limits, None, Repeat(n, 0)), 0, 0);
  }

  /** A limiter keeps the bound on every run exactly when its window is positive or its limit 0. */
  lemma {:induction false} BoundExactlyWhen(limits: Limits)
    ensures BoundHolds(limits) <==> limits.window > 0 || limits.maxRequests == 0
  {
    if limits.window == 0 && limits.maxRequests > 0 {
      BurstTimes(2 * limits.maxRequests + 1);
      ZeroWindowBreaksBound(limits);
    } else {
      forall calls, key, from, lo | MonotoneCalls(calls, from)
        ensures AcceptedInWindow(limits, calls, key, lo) <= 2 * limits.maxRequests
      {
        if limits.window > 0 {
          AtMostTwicePerWindow(limits, calls, key, from, lo);
        } else {
          SharedIsIndependent(limits, map[], calls, key, None, from);
          ZeroLimitAcceptsNone(limits, None, TimesOf(key, calls), lo, lo + limits.window);
        }
      }
    }
  }

  // ---------- The bound is reached ----------

  function Repeat(n: nat, t: int): seq<int> {
    if n == 0 then [] else [t] + Repeat(n - 1, t)
  }

  lemma {:induction false} BurstAccepted(limits: Limits, b: Bucket, n: nat, t: int, rest: seq<int>, lo: int, hi: int)
    requires t < b.resetAt && b.count + n <= limits.maxRequests && lo <= t <= hi
    ensures AcceptedIn(Repeat(n, t) + rest, SoloDecisions(limits, Some(b), Repeat(n, t) + rest), lo, hi) ==
            n + AcceptedIn(rest, SoloDecisions(limits, Some(b.(count := b.count + n)), rest), lo, hi)
    decreases n
  {
    var times := Repeat(n, t) + rest;
    if n == 0 {
      assert times == rest;
    } else {
      var next := b.(count := b.count + 1);
      assert times[1..] == Repeat(n - 1, t) + rest;
      assert SoloDecisions(limits, Some(b), times)[1..] == SoloDecisions(limits, Some(next), times[1..]);
      BurstAccepted(limits, next, n - 1, t, rest, lo, hi);
    }
  }

  /** A full burst at a bucket's start and another when it expires: 2 * maxRequests accepted
      within one window length, so the bound cannot be lowered. */
  lemma {:induction false} BoundIsReached(limits: Limits)
    requires limits.window > 0 && limits.maxRequests > 0
    ensures var m, w := limits.maxRequests, limits.window;
      var times := [0] + Repeat(m - 1, 0) + [w] + Repeat(m - 1, w);
      AcceptedIn(times, SoloDecisions(limits, None, times), 0, w) == 2 * m
  {
    hide Repeat;
    var m, w := limits.maxRequests, limits.window;
    var second := [w] + Repeat(m - 1, w);
    var first := Repeat(m - 1, 0) + second;
    var times := [0] + Repeat(m - 1, 0) + [w] + Repeat(m - 1, w);
    assert times == [0] + first;
    assert times[1..] == first;
    var b := Bucket(1, w);
    assert SoloDecisions(limits, None, times)[1..] == SoloDecisions(limits, Some(b), first);
    BurstAccepted(limits, b, m - 1, 0, second, 0, w);
    var full, b' := Bucket(m, w), Bucket(1, 2 * w);
    assert second[1..] == Repeat(m - 1, w) + [];
    assert SoloDecisions(limits, Some(full), second)[1..] == SoloDecisions(limits, Some(b'), second[1..]);
    BurstAccepted(limits, b', m - 1, w, [], 0, w);
  }
}
