/** The fixed-window limiter of packages/config/src/rate-limit.ts, and what its windows add up to. */
module RateLimit {
  import opened Wrappers

  datatype Bucket = Bucket(count: nat, resetAt: int)

  datatype Verdict = Verdict(allowed: bool, remaining: int, resetAt: int)

  /** A key's bucket after a call: the running window counts on, an absent or passed one is reopened. */
  function Counted(bucket: Option<Bucket>, now: int, window: int): Bucket {
    if bucket.Some? && bucket.value.resetAt > now
    then Bucket(bucket.value.count + 1, bucket.value.resetAt)
    else Bucket(1, now + window)
  }

  /** The module-level bucket map. */
  class Limiter {
    var buckets: map<string, Bucket>

    constructor ()
      ensures buckets == map[]
    {
      buckets := map[];
    }

    function Lookup(key: string): Option<Bucket>
      reads this
    {
      if key in buckets then Some(buckets[key]) else None
    }

    /** `checkInMemoryRateLimit` at clock reading now. */
    method Check(key: string, limit: int, window: int, now: int) returns (r: Verdict)
      modifies this
      ensures buckets == old(buckets)[key := Counted(old(Lookup(key)), now, window)]
      ensures r.allowed <==> buckets[key].count <= limit
      ensures r.remaining == (if r.allowed then limit - buckets[key].count else 0)
      ensures r.resetAt == buckets[key].resetAt && (window > 0 ==> now < r.resetAt)
    {
      var current := Bucket(0, now + window);
      if key in buckets && buckets[key].resetAt > now {
        current := buckets[key];
      }
      current := current.(count := current.count + 1);
      buckets := buckets[key := current];
      r := Verdict(current.count <= limit, if limit - current.count > 0 then limit - current.count else 0, current.resetAt);
    }
  }

  // ---------------------------------------------------------------- runs on one key

  /** The bucket after calls at the given times. */
  function After(times: seq<int>, window: int): Option<Bucket>
    decreases |times|
  {
    if times == [] then None
    else Some(Counted(After(times[..|times| - 1], window), times[|times| - 1], window))
  }

  /** Whether the i-th call is allowed. */
  predicate Allowed(times: seq<int>, limit: int, window: int, i: nat)
    requires i < |times|
  {
    Counted(After(times[..i], window), times[i], window).count <= limit
  }

  /** How many of the calls from index lo up to hi are allowed. */
  function AllowedCount(times: seq<int>, limit: int, window: int, lo: nat, hi: nat): nat
    requires lo <= hi <= |times|
    decreases hi - lo
  {
    if lo == hi then 0
    else AllowedCount(times, limit, window, lo, hi - 1) + (if Allowed(times, limit, window, hi - 1) then 1 else 0)
  }

  predicate NonDecreasing(times: seq<int>) {
    forall i, j :: 0 <= i <= j < |times| ==> times[i] <= times[j]
  }

  /** The call that opened the window of call i: the first one, or the first at least a window later. */
  function Opener(times: seq<int>, window: int, i: nat): (s: nat)
    requires i < |times|
    ensures s <= i
    decreases i
  {
    if i == 0 then 0
    else
      var s := Opener(times, window, i - 1);
      if times[i] < times[s] + window then s else i
  }

  /** The bucket counts the calls since the opener. */
  lemma {:induction false} BucketCountsWindow(times: seq<int>, window: int, i: nat)
    requires i < |times|
    ensures var s := Opener(times, window, i);
      Counted(After(times[..i], window), times[i], window) == Bucket(i - s + 1, times[s] + window)
    decreases i
  {
    if i > 0 {
      BucketCountsWindow(times, window, i - 1);
      assert times[..i][..i - 1] == times[..i - 1];
    }
  }

  /** A call is allowed exactly when fewer than limit calls precede it in its window. */
  lemma AllowedExact(times: seq<int>, limit: int, window: int, i: nat)
    requires i < |times|
    ensures Allowed(times, limit, window, i) <==> i - Opener(times, window, i) < limit
  {
    BucketCountsWindow(times, window, i);
  }

  /** n capped by the limit. */
  function Capped(n: nat, limit: int): nat {
    if limit <= 0 then 0 else if n < limit then n else limit
  }

  lemma {:induction false} CountWithinWindow(times: seq<int>, limit: int, window: int, s: nat, lo: nat, hi: nat)
    requires s <= lo <= hi <= |times|
    requires forall i :: lo <= i < hi ==> Opener(times, window, i) == s
    ensures AllowedCount(times, limit, window, lo, hi) == Capped(hi - s, limit) - Capped(lo - s, limit)
    decreases hi - lo
  {
    if lo < hi {
      CountWithinWindow(times, limit, window, s, lo, hi - 1);
      AllowedExact(times, limit, window, hi - 1);
    }
  }

  /** Calls s up to e are one window: s opens it, and the call at e, if any, comes after its end. */
  predicate IsWindow(times: seq<int>, window: int, s: nat, e: nat) {
    s < e <= |times| && Opener(times, window, s) == s
    && (forall i :: s <= i < e ==> times[i] < times[s] + window)
    && (e < |times| ==> times[e] >= times[s] + window)
  }

  lemma {:induction false} WindowHasOneOpener(times: seq<int>, window: int, s: nat, i: nat)
    requires s <= i < |times| && Opener(times, window, s) == s
    requires forall k :: s <= k <= i ==> times[k] < times[s] + window
    ensures Opener(times, window, i) == s
    decreases i
  {
    if s < i {
      WindowHasOneOpener(times, window, s, i - 1);
    }
  }

  /** Each window allows exactly the smaller of its calls and the limit. */
  lemma WindowAllowsExactly(times: seq<int>, limit: nat, window: int, s: nat, e: nat)
    requires IsWindow(times, window, s, e)
    ensures AllowedCount(times, limit, window, s, e) == if e - s < limit then e - s else limit
  {
    forall i | s <= i < e
      ensures Opener(times, window, i) == s
    {
      WindowHasOneOpener(times, window, s, i);
    }
    CountWithinWindow(times, limit, window, s, s, e);
  }

  // ---------------------------------------------------------------- any interval

  lemma {:induction false} CountSplits(times: seq<int>, limit: int, window: int, lo: nat, mid: nat, hi: nat)
    requires lo <= mid <= hi <= |times|
    ensures AllowedCount(times, limit, window, lo, hi)
         == AllowedCount(times, limit, window, lo, mid) + AllowedCount(times, limit, window, mid, hi)
    decreases hi - mid
  {
    if mid < hi {
      CountSplits(times, limit, window, lo, mid, hi - 1);
    }
  }

  /** The first call from lo on that is outside the window of s. */
  function NextOpener(times: seq<int>, window: int, s: nat, lo: nat, hi: nat): (e: nat)
    requires s <= lo <= hi <= |times| && (lo > s ==> Opener(times, window, lo - 1) == s)
    requires lo == s ==> lo < hi && Opener(times, window, s) == s
    ensures lo <= e <= hi && (forall i :: lo <= i < e ==> Opener(times, window, i) == s)
    ensures e < hi ==> Opener(times, window, e) == e && times[e] >= times[s] + window
    decreases hi - lo
  {
    if lo == hi || Opener(times, window, lo) != s then lo else NextOpener(times, window, s, lo + 1, hi)
  }

  /** Any half-open interval as long as the window holds at most 2 * limit - 1 allowed calls: it meets at
      most two windows, and when it meets two, the first one's opening call lies before it. */
  lemma IntervalBound(times: seq<int>, limit: nat, window: int, from: int, lo: nat, hi: nat)
    requires NonDecreasing(times) && window > 0 && lo <= hi <= |times|
    requires forall i :: lo <= i < hi ==> from <= times[i] < from + window
    ensures AllowedCount(times, limit, window, lo, hi) <= if limit == 0 then 0 else 2 * limit - 1
  {
    if lo < hi {
      var s := Opener(times, window, lo);
      OpenerStays(times, window, lo);
      var e := NextOpener(times, window, s, lo, hi);
      CountSplits(times, limit, window, lo, e, hi);
      CountWithinWindow(times, limit, window, s, lo, e);
      if e < hi {
        assert s < lo;
        forall i | e <= i < hi
          ensures Opener(times, window, i) == e
        {
          WindowHasOneOpener(times, window, e, i);
        }
        CountWithinWindow(times, limit, window, e, e, hi);
      }
    }
  }

  /** Between a call and its opener every call has the same opener. */
  lemma {:induction false} OpenerStays(times: seq<int>, window: int, i: nat)
    requires i < |times|
    ensures var s := Opener(times, window, i);
      forall k :: s <= k <= i ==> Opener(times, window, k) == s
    decreases i
  {
    if i > 0 {
      OpenerStays(times, window, i - 1);
    }
  }

  // ---------------------------------------------------------------- the bound is reached

  /** One call opens a window, limit - 1 more come in its last instant, and limit in the next window. */
  function Burst(limit: nat, window: int): seq<int>
    requires limit > 0
  {
    seq(2 * limit, i => if i == 0 then 0 else if i < limit then window - 1 else window)
  }

  /** The interval [window - 1, 2 * window - 1) of the burst holds 2 * limit - 1 calls, all allowed. */
  lemma BoundIsReached(limit: nat, window: int)
    requires limit > 0 && window > 1
    ensures var times := Burst(limit, window);
      && NonDecreasing(times)
      && (forall i :: 1 <= i < 2 * limit ==> window - 1 <= times[i] < 2 * window - 1)
      && AllowedCount(times, limit, window, 1, 2 * limit) == 2 * limit - 1
  {
    var times := Burst(limit, window);
    forall i | 0 <= i < limit
      ensures Opener(times, window, i) == 0
    {
      WindowHasOneOpener(times, window, 0, i);
    }
    assert Opener(times, window, limit) == limit;
    forall i | limit <= i < 2 * limit
      ensures Opener(times, window, i) == limit
    {
      WindowHasOneOpener(times, window, limit, i);
    }
    CountSplits(times, limit, window, 1, limit, 2 * limit);
    CountWithinWindow(times, limit, window, 0, 1, limit);
    CountWithinWindow(times, limit, window, limit, limit, 2 * limit);
  }
}
