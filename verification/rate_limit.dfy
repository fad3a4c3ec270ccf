/** The sliding-window rate limiter of `app/middleware/rate_limit.py`.

    The limiter keeps, per key, the timestamps of the requests it accepted.
    `IsAllowed` is one atomic step (the source takes a lock around it): it
    creates the key's history lazily, evicts the stale prefix, and then either
    denies without recording or records `now` and admits. The monotonic clock
    becomes the `now` parameter; timestamps are integers. */
module RateLimit {
  import opened Wrappers
  import Seqs
  import Text

  /** Constructor defaults of `SlidingWindowRateLimiter`. */
  const DefaultMaxRequests: int := 100
  const DefaultWindowSeconds: int := 60

  /** Configuration of the process-wide limiter (`RateLimitConfig`). */
  const ConfiguredMaxRequests: int := 2
  const ConfiguredWindowSeconds: int := 60

  /** Value of the `Retry-After` header sent with a 429; it is a fixed string,
      not derived from the window. */
  const RetryAfter: string := "60"

  datatype Limiter = Limiter(maxRequests: int, windowSeconds: int, cache: map<string, seq<int>>)

  /** `SlidingWindowRateLimiter(max_requests, window_seconds)`: no history yet. */
  function NewLimiter(maxRequests: int, windowSeconds: int): (l: Limiter)
    ensures l.maxRequests == maxRequests && l.windowSeconds == windowSeconds
    ensures forall key :: History(l, key) == []
  {
    Limiter(maxRequests, windowSeconds, map[])
  }

  /** The recorded timestamps for `key`; a key never seen has none. */
  function History(l: Limiter, key: string): seq<int> {
    if key in l.cache then l.cache[key] else []
  }

  /** How many recorded requests a key may hold: `len(q) >= max_requests`
      denies, so a non-positive maximum admits nothing. */
  function Capacity(l: Limiter): nat {
    if l.maxRequests < 0 then 0 else l.maxRequests
  }

  predicate Sorted(q: seq<int>) {
    forall i, j :: 0 <= i < j < |q| ==> q[i] <= q[j]
  }

  /** `kept` is what remains of `q` after popping stale timestamps from the
      front: a suffix of `q`, every popped timestamp is older than `cutoff`,
      and popping stopped at the first one that is not. */
  predicate IsEviction(q: seq<int>, kept: seq<int>, cutoff: int) {
    && |kept| <= |q|
    && kept == q[|q| - |kept|..]
    && (forall i :: 0 <= i < |q| - |kept| ==> q[i] < cutoff)
    && (|kept| > 0 ==> kept[0] >= cutoff)
  }

  /** `_clean_old`: `while q and q[0] < cutoff: q.popleft()`. A timestamp
      equal to the cutoff stays. */
  function Evict(q: seq<int>, cutoff: int): (kept: seq<int>)
    ensures IsEviction(q, kept, cutoff)
    decreases |q|
  {
    if |q| > 0 && q[0] < cutoff then Evict(q[1..], cutoff) else q
  }

  /** At most one sequence is an eviction of `q` at a given cutoff. */
  lemma EvictionUnique(q: seq<int>, a: seq<int>, b: seq<int>, cutoff: int)
    requires IsEviction(q, a, cutoff) && IsEviction(q, b, cutoff)
    ensures a == b
  {
  }

  /** The timestamps of `q` that are not older than `cutoff`, by plain filtering. */
  function InWindow(q: seq<int>, cutoff: int): (r: seq<int>)
    decreases |q|
  {
    if |q| == 0 then []
    else if q[0] >= cutoff then [q[0]] + InWindow(q[1..], cutoff)
    else InWindow(q[1..], cutoff)
  }

  /** On a time-ordered history, evicting the stale prefix is the same as
      keeping exactly the timestamps `t >= now - window`: every retained one is
      in the window, and one that equals the cutoff is retained. */
  lemma {:induction false} EvictSortedIsWindow(q: seq<int>, cutoff: int)
    requires Sorted(q)
    ensures Evict(q, cutoff) == InWindow(q, cutoff)
    decreases |q|
  {
    if |q| > 0 {
      if q[0] < cutoff {
        EvictSortedIsWindow(q[1..], cutoff);
      } else {
        AllInWindow(q, cutoff);
      }
    }
  }

  lemma {:induction false} AllInWindow(q: seq<int>, cutoff: int)
    requires forall i :: 0 <= i < |q| ==> q[i] >= cutoff
    ensures InWindow(q, cutoff) == q
    decreases |q|
  {
    if |q| > 0 {
      AllInWindow(q[1..], cutoff);
    }
  }

  /** Result of one `is_allowed` call: the answer and the limiter afterwards. */
  datatype Decision = Decision(allowed: bool, next: Limiter)

  /** `is_allowed(key)` at time `now`. */
  function IsAllowed(l: Limiter, key: string, now: int): (d: Decision)
    ensures d.next.maxRequests == l.maxRequests && d.next.windowSeconds == l.windowSeconds
    ensures d.next.cache.Keys == l.cache.Keys + {key}
    ensures forall k :: k != key ==> History(d.next, k) == History(l, k)
    ensures |History(d.next, key)| <= |History(l, key)| + 1
    ensures d.allowed ==> 0 < |History(d.next, key)| <= Capacity(l)
    ensures d.allowed ==> History(d.next, key)[|History(d.next, key)| - 1] == now
    ensures !d.allowed ==> |History(d.next, key)| >= l.maxRequests
  {
    var kept := Evict(History(l, key), now - l.windowSeconds);
    var allowed := |kept| < l.maxRequests;
    var q := if allowed then kept + [now] else kept;
    Record(l, key, q);
    Decision(allowed, l.(cache := l.cache[key := q]))
  }

  /** Storing `q` as the history of `key` changes no other key's history. */
  lemma Record(l: Limiter, key: string, q: seq<int>)
    ensures History(l.(cache := l.cache[key := q]), key) == q
    ensures forall k :: k != key ==> History(l.(cache := l.cache[key := q]), k) == History(l, k)
    ensures l.(cache := l.cache[key := q]).cache.Keys == l.cache.Keys + {key}
  {
  }

  /** What one `is_allowed` call does to its key's history: the stale prefix is
      evicted; with `max_requests` or more left the call is denied and nothing
      is appended; otherwise `now` is appended and the call is admitted. */
  lemma IsAllowedSpec(l: Limiter, key: string, now: int)
    ensures var d := IsAllowed(l, key, now);
      var q := History(d.next, key);
      if d.allowed then
        && |q| > 0 && q[|q| - 1] == now
        && IsEviction(History(l, key), q[..|q| - 1], now - l.windowSeconds)
        && |q| - 1 < l.maxRequests
      else
        && IsEviction(History(l, key), q, now - l.windowSeconds)
        && |q| >= l.maxRequests
  {
    var kept := Evict(History(l, key), now - l.windowSeconds);
    StepHistory(l, key, now);
    if |kept| < l.maxRequests {
      assert (kept + [now])[..|kept|] == kept;
    }
  }

  /** The limiter invariant at clock reading `clock`: no key holds more
      timestamps than the capacity, and each key's history is in time order
      and not in the future. */
  predicate Valid(l: Limiter, clock: int) {
    forall key :: key in l.cache ==> ValidHistory(l.cache[key], Capacity(l), clock)
  }

  predicate ValidHistory(q: seq<int>, capacity: nat, clock: int) {
    && |q| <= capacity
    && Sorted(q)
    && (forall i :: 0 <= i < |q| ==> q[i] <= clock)
  }

  lemma NewLimiterValid(maxRequests: int, windowSeconds: int, clock: int)
    ensures Valid(NewLimiter(maxRequests, windowSeconds), clock)
  {
  }

  /** One step keeps a single history valid once the clock has caught up with `now`. */
  lemma StepKeepsHistoryValid(l: Limiter, key: string, clock: int, now: int)
    requires ValidHistory(History(l, key), Capacity(l), clock)
    requires clock <= now
    ensures ValidHistory(History(IsAllowed(l, key, now).next, key), Capacity(l), now)
  {
    var h := History(l, key);
    var kept := Evict(h, now - l.windowSeconds);
    StepHistory(l, key, now);
    SuffixStaysValid(h, kept, Capacity(l), clock, now);
    if |kept| < l.maxRequests {
      AppendStaysValid(kept, Capacity(l), now);
    }
  }

  /** The history one step leaves for its key, in terms of the eviction. */
  lemma StepHistory(l: Limiter, key: string, now: int)
    ensures var kept := Evict(History(l, key), now - l.windowSeconds);
      && (IsAllowed(l, key, now).allowed <==> |kept| < l.maxRequests)
      && History(IsAllowed(l, key, now).next, key) == if |kept| < l.maxRequests then kept + [now] else kept
  {
  }

  lemma SuffixStaysValid(h: seq<int>, kept: seq<int>, capacity: nat, clock: int, now: int)
    requires ValidHistory(h, capacity, clock)
    requires clock <= now
    requires |kept| <= |h| && kept == h[|h| - |kept|..]
    ensures ValidHistory(kept, capacity, now)
  {
    forall i, j | 0 <= i < j < |kept|
      ensures kept[i] <= kept[j]
    {
      assert kept[i] == h[|h| - |kept| + i] && kept[j] == h[|h| - |kept| + j];
    }
    forall i | 0 <= i < |kept|
      ensures kept[i] <= now
    {
      assert kept[i] == h[|h| - |kept| + i];
    }
  }

  lemma AppendStaysValid(kept: seq<int>, capacity: nat, now: int)
    requires ValidHistory(kept, capacity, now)
    requires |kept| < capacity
    ensures ValidHistory(kept + [now], capacity, now)
  {
    var q := kept + [now];
    forall i, j | 0 <= i < j < |q|
      ensures q[i] <= q[j]
    {
      if j < |kept| {
        assert q[i] == kept[i] && q[j] == kept[j];
      } else {
        assert q[i] == kept[i];
      }
    }
  }

  /** With a clock that never goes backwards, every step keeps the invariant:
      histories stay within capacity and stay sorted. */
  lemma IsAllowedPreservesValid(l: Limiter, key: string, clock: int, now: int)
    requires Valid(l, clock)
    requires clock <= now
    ensures Valid(IsAllowed(l, key, now).next, now)
  {
    var next := IsAllowed(l, key, now).next;
    assert Capacity(next) == Capacity(l);
    forall k | k in next.cache
      ensures ValidHistory(next.cache[k], Capacity(next), now)
    {
      assert next.cache[k] == History(next, k);
      if k == key {
        HeldHistoryValid(l, key, clock);
        StepKeepsHistoryValid(l, key, clock, now);
      } else {
        HeldHistoryValid(l, k, clock);
        ValidHistoryLater(History(l, k), Capacity(l), clock, now);
      }
    }
  }

  /** Every history of a valid limiter is valid, including a key never seen. */
  lemma HeldHistoryValid(l: Limiter, key: string, clock: int)
    requires Valid(l, clock)
    ensures ValidHistory(History(l, key), Capacity(l), clock)
  {
  }

  lemma ValidHistoryLater(q: seq<int>, capacity: nat, clock: int, now: int)
    requires ValidHistory(q, capacity, clock)
    requires clock <= now
    ensures ValidHistory(q, capacity, now)
  {
  }

  /** Key isolation: a call for one key never changes the answer later given to
      another key, so exhausting one organisation never denies another. */
  lemma OtherKeyUnaffected(l: Limiter, key: string, other: string, t1: int, t2: int)
    requires key != other
    ensures IsAllowed(IsAllowed(l, key, t1).next, other, t2).allowed == IsAllowed(l, other, t2).allowed
  {
    var l1 := IsAllowed(l, key, t1).next;
    assert History(l1, other) == History(l, other);
    StepHistory(l1, other, t2);
    StepHistory(l, other, t2);
  }

  /** A key never seen before is admitted whenever the capacity is positive. */
  lemma FreshKeyAdmitted(l: Limiter, key: string, now: int)
    requires key !in l.cache
    requires l.maxRequests >= 1
    ensures IsAllowed(l, key, now).allowed
  {
  }

  /** After a full window with no admitted request, a key is admitted again:
      once every recorded timestamp is older than `now - window`, all of them
      are evicted. */
  lemma AdmittedAfterWindow(l: Limiter, key: string, now: int)
    requires l.maxRequests >= 1
    requires forall i :: 0 <= i < |History(l, key)| ==> History(l, key)[i] < now - l.windowSeconds
    ensures IsAllowed(l, key, now).allowed
    ensures History(IsAllowed(l, key, now).next, key) == [now]
  {
  }

  /** A call whose window still holds the key's whole history: it is admitted,
      and recorded, exactly when fewer than `max_requests` requests are held. */
  lemma StepWithinWindow(l: Limiter, key: string, now: int)
    requires forall i :: 0 <= i < |History(l, key)| ==> History(l, key)[i] >= now - l.windowSeconds
    ensures IsAllowed(l, key, now).allowed <==> |History(l, key)| < l.maxRequests
    ensures History(IsAllowed(l, key, now).next, key)
      == if |History(l, key)| < l.maxRequests then History(l, key) + [now] else History(l, key)
  {
    var h := History(l, key);
    assert Evict(h, now - l.windowSeconds) == h by {
      if |h| > 0 {
        assert h[0] >= now - l.windowSeconds;
      }
    }
  }

  /** The two-request scenario of the limiter tests: with `max_requests = 2`
      and a 60-second window, the first two calls for one organisation are
      admitted, the third is denied, and another organisation is still
      admitted afterwards. */
  lemma TwoPerWindowScenario(t0: int, t1: int, t2: int, t3: int)
    requires t0 <= t1 <= t2 <= t3 <= t0 + 60
    ensures var l0 := NewLimiter(2, 60);
      var d1 := IsAllowed(l0, "org:org_limit_a", t0);
      var d2 := IsAllowed(d1.next, "org:org_limit_a", t1);
      var d3 := IsAllowed(d2.next, "org:org_limit_a", t2);
      var d4 := IsAllowed(d3.next, "org:org_limit_b", t3);
      d1.allowed && d2.allowed && !d3.allowed && d4.allowed
  {
    var a, b := "org:org_limit_a", "org:org_limit_b";
    assert a[14] != b[14];
    var l0 := NewLimiter(2, 60);
    var l1 := IsAllowed(l0, a, t0).next;
    var l2 := IsAllowed(l1, a, t1).next;
    var l3 := IsAllowed(l2, a, t2).next;
    TwoThenDenied(l0, l1, l2, a, t0, t1, t2);
    OtherKeyStillAdmitted(l0, l1, l2, l3, a, b, t0, t1, t2, t3);
  }

  /** With two requests per sixty seconds and no history for `a`, the first
      two calls for `a` within one window are admitted and the third is
      denied; `l1` and `l2` are the limiter after the first and second call. */
  lemma TwoThenDenied(l0: Limiter, l1: Limiter, l2: Limiter, a: string, t0: int, t1: int, t2: int)
    requires l0.maxRequests == 2 && l0.windowSeconds == 60
    requires History(l0, a) == []
    requires t0 <= t1 <= t2 <= t0 + 60
    requires l1 == IsAllowed(l0, a, t0).next
    requires l2 == IsAllowed(l1, a, t1).next
    ensures IsAllowed(l0, a, t0).allowed && IsAllowed(l1, a, t1).allowed
    ensures !IsAllowed(l2, a, t2).allowed
  {
    AdmitStep(l0, a, t0, []);
    AdmitStep(l1, a, t1, [t0]);
    PairAtLeast(t0, t1, t2 - 60);
    DenyStep(l2, a, t2, [t0] + [t1]);
  }

  /** Calls for `a` leave another key `b` without history, so its first call
      is admitted. */
  lemma OtherKeyStillAdmitted(l0: Limiter, l1: Limiter, l2: Limiter, l3: Limiter, a: string, b: string,
                              t0: int, t1: int, t2: int, t3: int)
    requires l0.maxRequests == 2
    requires History(l0, b) == []
    requires a != b
    requires l1 == IsAllowed(l0, a, t0).next
    requires l2 == IsAllowed(l1, a, t1).next
    requires l3 == IsAllowed(l2, a, t2).next
    ensures IsAllowed(l3, b, t3).allowed
  {
    KeyUntouched(l0, a, b, t0);
    KeyUntouched(l1, a, b, t1);
    KeyUntouched(l2, a, b, t2);
    AdmitStep(l3, b, t3, []);
  }

  /** A call whose window holds the whole history `h` and finds room admits. */
  lemma AdmitStep(l: Limiter, key: string, now: int, h: seq<int>)
    requires History(l, key) == h && |h| < l.maxRequests
    requires forall i :: 0 <= i < |h| ==> h[i] >= now - l.windowSeconds
    ensures IsAllowed(l, key, now).allowed
    ensures History(IsAllowed(l, key, now).next, key) == h + [now]
    ensures IsAllowed(l, key, now).next.maxRequests == l.maxRequests
    ensures IsAllowed(l, key, now).next.windowSeconds == l.windowSeconds
  {
    StepWithinWindow(l, key, now);
  }

  /** A call whose window holds the whole history `h` and finds no room denies. */
  lemma DenyStep(l: Limiter, key: string, now: int, h: seq<int>)
    requires History(l, key) == h && |h| >= l.maxRequests
    requires forall i :: 0 <= i < |h| ==> h[i] >= now - l.windowSeconds
    ensures !IsAllowed(l, key, now).allowed
    ensures IsAllowed(l, key, now).next.maxRequests == l.maxRequests
  {
    StepWithinWindow(l, key, now);
  }

  lemma PairAtLeast(t0: int, t1: int, cutoff: int)
    requires cutoff <= t0 && cutoff <= t1
    ensures forall i :: 0 <= i < |[t0] + [t1]| ==> ([t0] + [t1])[i] >= cutoff
  {
  }

  lemma KeyUntouched(l: Limiter, key: string, other: string, now: int)
    requires key != other
    ensures History(IsAllowed(l, key, now).next, other) == History(l, other)
  {
  }

  /** The outcome of feeding a run of calls for one key to the limiter. */
  datatype Run = Run(admitted: nat, final: Limiter)

  /** Applies `is_allowed(key)` at each time of `times` in turn and counts admissions. */
  function RunCalls(l: Limiter, key: string, times: seq<int>): (r: Run)
    ensures r.admitted <= |times|
    decreases |times|
  {
    if |times| == 0 then Run(0, l)
    else
      var d := IsAllowed(l, key, times[0]);
      var rest := RunCalls(d.next, key, times[1..]);
      Run(rest.admitted + (if d.allowed then 1 else 0), rest.final)
  }

  /** One call of a burst: nothing recorded is evicted, and the call is
      admitted exactly when there is room, growing the history by one. */
  lemma BurstStep(l: Limiter, key: string, start: int, now: int)
    requires |History(l, key)| <= Capacity(l)
    requires forall i :: 0 <= i < |History(l, key)| ==> History(l, key)[i] >= start
    requires start <= now <= start + l.windowSeconds
    ensures var d := IsAllowed(l, key, now);
      && Capacity(d.next) == Capacity(l) && d.next.windowSeconds == l.windowSeconds
      && (d.allowed <==> |History(l, key)| < Capacity(l))
      && |History(d.next, key)| == |History(l, key)| + (if d.allowed then 1 else 0)
      && |History(d.next, key)| <= Capacity(l)
      && (forall i :: 0 <= i < |History(d.next, key)| ==> History(d.next, key)[i] >= start)
  {
    var d := IsAllowed(l, key, now);
    StepWithinWindow(l, key, now);
    ghost var h, q := History(l, key), History(d.next, key);
    if d.allowed {
      assert q == h + [now];
    } else {
      assert q == h;
    }
  }

  /** A burst inside one window admits exactly as many calls as there is room
      left: with a fresh key and `max_requests = N`, a burst of `N + 1` calls
      within one window admits exactly `N` and denies the rest. */
  lemma {:induction false} BurstAdmitsRemainingCapacity(l: Limiter, key: string, start: int, times: seq<int>)
    requires |History(l, key)| <= Capacity(l)
    requires forall i :: 0 <= i < |History(l, key)| ==> History(l, key)[i] >= start
    requires forall i :: 0 <= i < |times| ==> start <= times[i] <= start + l.windowSeconds
    ensures RunCalls(l, key, times).admitted == Seqs.Min(|times|, Capacity(l) - |History(l, key)|)
    decreases |times|
  {
    if |times| > 0 {
      BurstTailReady(l, key, start, times);
      BurstAdmitsRemainingCapacity(IsAllowed(l, key, times[0]).next, key, start, times[1..]);
      BurstCombine(l, key, times);
    }
  }

  /** After the first call of a burst, the rest of the burst meets the same
      conditions from the limiter that call left. */
  lemma BurstTailReady(l: Limiter, key: string, start: int, times: seq<int>)
    requires |times| > 0
    requires |History(l, key)| <= Capacity(l)
    requires forall i :: 0 <= i < |History(l, key)| ==> History(l, key)[i] >= start
    requires forall i :: 0 <= i < |times| ==> start <= times[i] <= start + l.windowSeconds
    ensures var d := IsAllowed(l, key, times[0]);
      && Capacity(d.next) == Capacity(l)
      && (d.allowed <==> |History(l, key)| < Capacity(l))
      && |History(d.next, key)| == |History(l, key)| + (if d.allowed then 1 else 0)
    ensures var n := IsAllowed(l, key, times[0]).next;
      && |History(n, key)| <= Capacity(n)
      && (forall i :: 0 <= i < |History(n, key)| ==> History(n, key)[i] >= start)
      && (forall i :: 0 <= i < |times[1..]| ==> start <= times[1..][i] <= start + n.windowSeconds)
  {
    BurstStep(l, key, start, times[0]);
    TailInWindow(times, start, l.windowSeconds);
  }

  /** The count of a burst from the first call's outcome and the count of the rest. */
  lemma BurstCombine(l: Limiter, key: string, times: seq<int>)
    requires |times| > 0
    requires |History(l, key)| <= Capacity(l)
    requires var d := IsAllowed(l, key, times[0]);
      && Capacity(d.next) == Capacity(l)
      && (d.allowed <==> |History(l, key)| < Capacity(l))
      && |History(d.next, key)| == |History(l, key)| + (if d.allowed then 1 else 0)
    requires var n := IsAllowed(l, key, times[0]).next;
      RunCalls(n, key, times[1..]).admitted == Seqs.Min(|times[1..]|, Capacity(n) - |History(n, key)|)
    ensures RunCalls(l, key, times).admitted == Seqs.Min(|times|, Capacity(l) - |History(l, key)|)
  {
    var d := IsAllowed(l, key, times[0]);
    RunCallsStep(l, key, times);
    BurstCount(|times|, Capacity(l), |History(l, key)|, d.allowed, |History(d.next, key)|,
               RunCalls(d.next, key, times[1..]).admitted);
  }

  /** The counting step of a burst: the first call takes one unit of room
      exactly when there is some, and the rest of the burst takes what is left. */
  lemma BurstCount(n: int, capacity: int, before: int, allowed: bool, after: int, rest: int)
    requires n > 0 && before <= capacity
    requires allowed <==> before < capacity
    requires after == before + (if allowed then 1 else 0)
    requires rest == Seqs.Min(n - 1, capacity - after)
    ensures rest + (if allowed then 1 else 0) == Seqs.Min(n, capacity - before)
  {
  }

  /** The limiter built with the constructor's defaults admits exactly the
      first hundred calls of any burst inside one sixty-second window. */
  lemma DefaultLimiterBurst(key: string, start: int, times: seq<int>)
    requires forall i :: 0 <= i < |times| ==> start <= times[i] <= start + DefaultWindowSeconds
    ensures RunCalls(NewLimiter(DefaultMaxRequests, DefaultWindowSeconds), key, times).admitted
      == Seqs.Min(|times|, 100)
  {
    BurstAdmitsRemainingCapacity(NewLimiter(DefaultMaxRequests, DefaultWindowSeconds), key, start, times);
  }

  /** One unfolding of `RunCalls`: the first call, then the rest of the run. */
  lemma RunCallsStep(l: Limiter, key: string, times: seq<int>)
    requires |times| > 0
    ensures RunCalls(l, key, times).admitted
      == RunCalls(IsAllowed(l, key, times[0]).next, key, times[1..]).admitted
         + (if IsAllowed(l, key, times[0]).allowed then 1 else 0)
  {
  }

  lemma TailInWindow(times: seq<int>, start: int, window: int)
    requires |times| > 0
    requires forall i :: 0 <= i < |times| ==> start <= times[i] <= start + window
    ensures forall i :: 0 <= i < |times[1..]| ==> start <= times[1..][i] <= start + window
  {
    forall i | 0 <= i < |times[1..]|
      ensures start <= times[1..][i] <= start + window
    {
      assert times[1..][i] == times[i + 1];
    }
  }

  /** The timestamps of `q` that are at least `start`, counted. */
  function CountSince(q: seq<int>, start: int): nat
    decreases |q|
  {
    if |q| == 0 then 0 else (if q[0] >= start then 1 else 0) + CountSince(q[1..], start)
  }

  lemma {:induction false} CountSinceBound(q: seq<int>, start: int)
    ensures CountSince(q, start) <= |q|
    decreases |q|
  {
    if |q| > 0 {
      CountSinceBound(q[1..], start);
    }
  }

  lemma {:induction false} CountSinceAppend(q: seq<int>, t: int, start: int)
    ensures CountSince(q + [t], start) == CountSince(q, start) + (if t >= start then 1 else 0)
    decreases |q|
  {
    if |q| > 0 {
      assert (q + [t])[1..] == q[1..] + [t];
      CountSinceAppend(q[1..], t, start);
    }
  }

  /** Eviction at a cutoff not after `start` drops no timestamp at or after `start`. */
  lemma {:induction false} EvictKeepsRecent(q: seq<int>, cutoff: int, start: int)
    requires cutoff <= start
    ensures CountSince(Evict(q, cutoff), start) == CountSince(q, start)
    decreases |q|
  {
    if |q| > 0 && q[0] < cutoff {
      EvictKeepsRecent(q[1..], cutoff, start);
    }
  }

  /** One step at a time whose cutoff is not after `start` adds one recent
      timestamp when it admits and none otherwise. */
  lemma StepCountsAdmission(l: Limiter, key: string, now: int, start: int)
    requires now - l.windowSeconds <= start <= now
    ensures CountSince(History(IsAllowed(l, key, now).next, key), start)
      == CountSince(History(l, key), start) + (if IsAllowed(l, key, now).allowed then 1 else 0)
  {
    var h := History(l, key);
    var kept := Evict(h, now - l.windowSeconds);
    StepHistory(l, key, now);
    EvictKeepsRecent(h, now - l.windowSeconds, start);
    CountSinceAppend(kept, now, start);
  }

  /** A single step never pushes a history past the capacity. */
  lemma StepWithinCapacity(l: Limiter, key: string, now: int)
    requires |History(l, key)| <= Capacity(l)
    ensures |History(IsAllowed(l, key, now).next, key)| <= Capacity(l)
  {
  }

  /** Requests admitted during the run are all still recorded at its end, and
      the history never exceeds the capacity. */
  lemma {:induction false} RunRecordsAdmitted(l: Limiter, key: string, start: int, times: seq<int>)
    requires |History(l, key)| <= Capacity(l)
    requires forall i :: 0 <= i < |times| ==> start <= times[i] <= start + l.windowSeconds
    ensures CountSince(History(RunCalls(l, key, times).final, key), start)
      == CountSince(History(l, key), start) + RunCalls(l, key, times).admitted
    ensures |History(RunCalls(l, key, times).final, key)| <= Capacity(l)
    decreases |times|
  {
    if |times| > 0 {
      var d := IsAllowed(l, key, times[0]);
      StepCountsAdmission(l, key, times[0], start);
      StepWithinCapacity(l, key, times[0]);
      RunRecordsAdmitted(d.next, key, start, times[1..]);
    }
  }

  /** No overshoot: whatever the key's earlier history, a run of calls that all
      fall inside one window never admits more than the capacity. */
  lemma NoOvershootWithinWindow(l: Limiter, key: string, start: int, times: seq<int>)
    requires |History(l, key)| <= Capacity(l)
    requires forall i :: 0 <= i < |times| ==> start <= times[i] <= start + l.windowSeconds
    ensures RunCalls(l, key, times).admitted <= Capacity(l)
  {
    RunRecordsAdmitted(l, key, start, times);
    CountSinceBound(History(RunCalls(l, key, times).final, key), start);
  }

  /** The parts of an incoming request that key derivation reads: the
      `x-forwarded-for` header, if sent, and the peer's host, if known. */
  datatype ClientRequest = ClientRequest(forwardedFor: Option<string>, clientHost: Option<string>)

  /** The client address used when no organisation is given: the first entry
      of a non-empty forwarded-for header with whitespace stripped, else the
      peer's host, else the literal `unknown`. */
  function ClientAddress(req: ClientRequest): (ip: string)
    ensures IsTruthy(req.forwardedFor) ==> ',' !in ip
    ensures IsTruthy(req.forwardedFor) ==>
      |ip| > 0 ==> !Text.IsSpace(ip[0]) && !Text.IsSpace(ip[|ip| - 1])
    ensures IsTruthy(req.forwardedFor) ==>
      Text.Contains(req.forwardedFor.value, ip)
    ensures !IsTruthy(req.forwardedFor) && req.clientHost.Some? ==> ip == req.clientHost.value
    ensures !IsTruthy(req.forwardedFor) && req.clientHost.None? ==> ip == "unknown"
  {
    if IsTruthy(req.forwardedFor) then
      FirstEntryNoComma(req.forwardedFor.value);
      FirstEntryWithin(req.forwardedFor.value);
      Text.Strip(Text.BeforeFirst(req.forwardedFor.value, ','))
    else if req.clientHost.Some? then req.clientHost.value
    else "unknown"
  }

  /** The first entry of a forwarded-for header holds no comma. */
  lemma FirstEntryNoComma(v: string)
    ensures ',' !in Text.Strip(Text.BeforeFirst(v, ','))
  {
    var first := Text.BeforeFirst(v, ',');
    var ip := Text.Strip(first);
    var i := Text.StripStart(first);
    forall k | 0 <= k < |ip|
      ensures ip[k] != ','
    {
      assert ip[k] == first[i + k];
    }
  }

  /** The first entry of a forwarded-for header is a substring of it. */
  lemma FirstEntryWithin(v: string)
    ensures Text.Contains(v, Text.Strip(Text.BeforeFirst(v, ',')))
  {
    var first := Text.BeforeFirst(v, ',');
    var ip := Text.Strip(first);
    var i := Text.StripStart(first);
    BlockOfPrefix(v, first, ip, i);
  }

  /** A block of a prefix of `v` occurs in `v`. */
  lemma BlockOfPrefix(v: string, first: string, ip: string, i: int)
    requires first <= v
    requires 0 <= i && i + |ip| <= |first| && ip == first[i..i + |ip|]
    ensures Text.Contains(v, ip)
  {
    forall k | 0 <= k < |ip|
      ensures ip[k] == v[i + k]
    {
      assert ip[k] == first[i + k];
    }
    assert ip <= v[i..];
  }

  /** `get_client_key`: organisations are limited per organisation, anything
      else per client address. */
  function GetClientKey(req: ClientRequest, orgId: Option<string>): (key: string)
    ensures IsTruthy(orgId) ==> key == "org:" + orgId.value
    ensures !IsTruthy(orgId) ==> key == "ip:" + ClientAddress(req)
  {
    if IsTruthy(orgId) then "org:" + orgId.value else "ip:" + ClientAddress(req)
  }

  /** Distinct organisations never share a rate-limit key. */
  lemma OrgKeysDistinct(r1: ClientRequest, r2: ClientRequest, a: Option<string>, b: Option<string>)
    requires IsTruthy(a) && IsTruthy(b) && a != b
    ensures GetClientKey(r1, a) != GetClientKey(r2, b)
  {
    assert GetClientKey(r1, a)[4..] == a.value;
    assert GetClientKey(r2, b)[4..] == b.value;
  }

  /** An organisation key never coincides with an address key, so traffic
      without an organisation cannot use up an organisation's quota. */
  lemma OrgAndAddressKeysDistinct(r1: ClientRequest, r2: ClientRequest, a: Option<string>, b: Option<string>)
    requires IsTruthy(a) && !IsTruthy(b)
    ensures GetClientKey(r1, a) != GetClientKey(r2, b)
  {
    assert GetClientKey(r1, a)[0] == 'o' && GetClientKey(r2, b)[0] == 'i';
  }

  /** `check_rate_limit`: either the request passes, or `RateLimitExceeded`
      is raised; the limiter has taken its step in both cases. */
  datatype RateLimitCheck = Passed(next: Limiter) | RateLimitExceeded(next: Limiter)

  function CheckRateLimit(l: Limiter, req: ClientRequest, orgId: string, now: int): (r: RateLimitCheck)
    ensures r.RateLimitExceeded? <==> !IsAllowed(l, GetClientKey(req, Some(orgId)), now).allowed
    ensures r.next == IsAllowed(l, GetClientKey(req, Some(orgId)), now).next
    ensures |orgId| > 0 ==> forall k :: k != "org:" + orgId ==> History(r.next, k) == History(l, k)
  {
    var d := IsAllowed(l, GetClientKey(req, Some(orgId)), now);
    if d.allowed then Passed(d.next) else RateLimitExceeded(d.next)
  }
}
