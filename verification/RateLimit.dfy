/** The console's fixed-window rate limiter: one counter for each scope and address, pruned now and then. */
module RateLimit {
  import opened Wrappers

  datatype Scope = Auth | Request

  datatype Policy = Policy(authPerMinute: int, requestsPerMinute: int, windowMs: int)

  datatype Counter = Counter(count: int, windowStart: int)

  type Counters = map<string, Counter>

  datatype Verdict = Ok | Refused(retryAfterSeconds: int)

  /** One request for one bucket. */
  datatype Hit = Hit(address: string, scope: Scope, nowMs: int)

  const PRUNE_ABOVE := 4096

  function Key(address: string, scope: Scope): string {
    (if scope == Auth then "AUTH" else "REQUEST") + ":" + address
  }

  function LimitFor(p: Policy, scope: Scope): int {
    if scope == Auth then p.authPerMinute else p.requestsPerMinute
  }

  predicate Expired(c: Counter, windowMs: int, nowMs: int) {
    nowMs - c.windowStart >= windowMs
  }

  /** Math.max(1, Math.ceil(left / 1000)). */
  function RetryAfter(left: int): int {
    var seconds := (left + 999) / 1000;
    if seconds < 1 then 1 else seconds
  }

  /** What one bucket's counter answers, and what it becomes. */
  function CheckBucket(c: Option<Counter>, limit: int, windowMs: int, nowMs: int): (Verdict, Counter) {
    if c.None? || Expired(c.value, windowMs, nowMs) then (Ok, Counter(1, nowMs))
    else if c.value.count >= limit then (Refused(RetryAfter(windowMs - (nowMs - c.value.windowStart))), c.value)
    else (Ok, c.value.(count := c.value.count + 1))
  }

  function Get(counters: Counters, key: string): Option<Counter> {
    if key in counters then Some(counters[key]) else None
  }

  function Pruned(counters: Counters, windowMs: int, nowMs: int): Counters {
    map key | key in counters && !Expired(counters[key], windowMs, nowMs) :: counters[key]
  }

  /** The limiter's answer and its counters afterwards; only opening a window on a large map prunes it. */
  function CheckValue(p: Policy, counters: Counters, h: Hit): (Verdict, Counters) {
    var key := Key(h.address, h.scope);
    var existing := Get(counters, key);
    var (verdict, counter) := CheckBucket(existing, LimitFor(p, h.scope), p.windowMs, h.nowMs);
    var opens := existing.None? || Expired(existing.value, p.windowMs, h.nowMs);
    var kept := if opens && |counters| > PRUNE_ABOVE then Pruned(counters, p.windowMs, h.nowMs) else counters;
    (verdict, kept[key := counter])
  }

  class ConsoleRateLimiter {
    const policy: Policy
    var counters: Counters

    constructor (policy: Policy)
      ensures this.policy == policy && counters == map[]
    {
      this.policy, counters := policy, map[];
    }

    method Check(address: string, scope: Scope, nowMs: int) returns (verdict: Verdict)
      modifies this
      ensures (verdict, counters) == CheckValue(policy, old(counters), Hit(address, scope, nowMs))
    {
      var limit := if scope == Auth then policy.authPerMinute else policy.requestsPerMinute;
      var key := Key(address, scope);
      if key !in counters || nowMs - counters[key].windowStart >= policy.windowMs {
        if |counters| > PRUNE_ABOVE {
          Prune(nowMs);
        }
        counters := counters[key := Counter(1, nowMs)];
        return Ok;
      }
      var existing := counters[key];
      if existing.count >= limit {
        var elapsed := nowMs - existing.windowStart;
        assert counters[key := existing] == counters;
        return Refused(RetryAfter(policy.windowMs - elapsed));
      }
      counters := counters[key := existing.(count := existing.count + 1)];
      verdict := Ok;
    }

    method Prune(nowMs: int)
      modifies this
      ensures counters == Pruned(old(counters), policy.windowMs, nowMs)
    {
      var keys := counters.Keys;
      while keys != {}
        invariant keys <= counters.Keys <= old(counters).Keys
        invariant forall key :: key in counters ==> counters[key] == old(counters)[key]
        invariant forall key :: key in old(counters) && key !in keys ==>
                    (key in counters <==> !Expired(old(counters)[key], policy.windowMs, nowMs))
        decreases |keys|
      {
        var key :| key in keys;
        keys := keys - {key};
        if nowMs - counters[key].windowStart >= policy.windowMs {
          counters := counters - {key};
        }
      }
    }
  }

  // --- runs ----------------------------------------------------------------------------------------

  function CountersAfter(p: Policy, hits: seq<Hit>): Counters {
    if hits == [] then map[] else CheckValue(p, CountersAfter(p, hits[..|hits| - 1]), hits[|hits| - 1]).1
  }

  /** The bucket a hit belongs to. */
  predicate SameBucket(h: Hit, g: Hit) {
    h.address == g.address && h.scope == g.scope
  }

  /** A counter that has seen only its own bucket's hits and was never pruned. */
  function OwnCounter(p: Policy, hits: seq<Hit>, h: Hit): Option<Counter> {
    if hits == [] then None
    else
      var last := hits[|hits| - 1];
      var before := OwnCounter(p, hits[..|hits| - 1], h);
      if SameBucket(last, h) then Some(CheckBucket(before, LimitFor(p, h.scope), p.windowMs, last.nowMs).1) else before
  }

  predicate ClockNeverRunsBack(hits: seq<Hit>) {
    forall i, j :: 0 <= i < j < |hits| ==> hits[i].nowMs <= hits[j].nowMs
  }

  /** The scope is the part of the key before its first colon, so no two buckets share a key. */
  lemma KeyInjective(h: Hit, g: Hit)
    ensures Key(h.address, h.scope) == Key(g.address, g.scope) <==> SameBucket(h, g)
  {
    var a, b := Key(h.address, h.scope), Key(g.address, g.scope);
    if a == b {
      assert a[0] == b[0];
      assert h.scope == g.scope;
      var n := if h.scope == Auth then 5 else 8;
      assert h.address == a[n..] && g.address == b[n..];
    }
  }

  /** The map holds a bucket's own counter, or has pruned it after it expired. */
  ghost predicate HoldsOrForgot(p: Policy, hits: seq<Hit>, h: Hit, nowMs: int) {
    var mine, own := Get(CountersAfter(p, hits), Key(h.address, h.scope)), OwnCounter(p, hits, h);
    mine == own || (mine.None? && own.Some? && Expired(own.value, p.windowMs, nowMs))
  }

  lemma {:induction false} BucketsAreSeparate(p: Policy, hits: seq<Hit>, h: Hit, nowMs: int)
    requires ClockNeverRunsBack(hits) && (hits != [] ==> hits[|hits| - 1].nowMs <= nowMs)
    ensures HoldsOrForgot(p, hits, h, nowMs)
  {
    if hits != [] {
      var front, last := hits[..|hits| - 1], hits[|hits| - 1];
      BucketsAreSeparate(p, front, h, last.nowMs);
      BucketsAreSeparate(p, front, last, last.nowMs);
      KeyInjective(last, h);
    }
  }

  /**
   * With a clock that never runs back, the limiter's answer to a request is decided by the earlier requests
   * of the same scope and address alone: pruning never shows, and buckets never interfere.
   */
  lemma AnswerIsTheBucketsOwn(p: Policy, hits: seq<Hit>, h: Hit)
    requires ClockNeverRunsBack(hits + [h])
    ensures CheckValue(p, CountersAfter(p, hits), h).0 ==
            CheckBucket(OwnCounter(p, hits, h), LimitFor(p, h.scope), p.windowMs, h.nowMs).0
  {
    var all := hits + [h];
    assert forall i :: 0 <= i < |hits| ==> all[i] == hits[i];
    assert hits != [] ==> all[|hits| - 1].nowMs <= all[|hits|].nowMs;
    BucketsAreSeparate(p, hits, h, h.nowMs);
  }

  /** A request that opens a window prunes a map of more than 4096 counters and no other; its own counter is there. */
  lemma OnlyLargeMapsArePruned(p: Policy, counters: Counters, h: Hit, key: string)
    requires key in counters && key != Key(h.address, h.scope)
    ensures var own, after := Get(counters, Key(h.address, h.scope)), CheckValue(p, counters, h).1;
            var opens := own.None? || h.nowMs >= own.value.windowStart + p.windowMs;
            && Key(h.address, h.scope) in after
            && (key in after <==> !(opens && |counters| > 4096 && h.nowMs >= counters[key].windowStart + p.windowMs))
            && (key in after ==> after[key] == counters[key])
  {
  }

  // --- how much one bucket admits ---------------------------------------------------------------------

  function Window(limit: int, windowMs: int, ts: seq<int>): Option<Counter> {
    if ts == [] then None
    else Some(CheckBucket(Window(limit, windowMs, ts[..|ts| - 1]), limit, windowMs, ts[|ts| - 1]).1)
  }

  predicate AdmitsLast(limit: int, windowMs: int, ts: seq<int>)
    requires ts != []
  {
    CheckBucket(Window(limit, windowMs, ts[..|ts| - 1]), limit, windowMs, ts[|ts| - 1]).0.Ok?
  }

  /** How many requests made from time a on, and before a + windowMs, were admitted. */
  function AdmittedFrom(limit: int, windowMs: int, ts: seq<int>, a: int): nat {
    if ts == [] then 0
    else
      AdmittedFrom(limit, windowMs, ts[..|ts| - 1], a)
      + if a <= ts[|ts| - 1] < a + windowMs && AdmitsLast(limit, windowMs, ts) then 1 else 0
  }

  predicate Ascending(ts: seq<int>) {
    forall i, j :: 0 <= i < j < |ts| ==> ts[i] <= ts[j]
  }

  function AtLeastOne(limit: int): nat {
    if limit < 1 then 1 else limit
  }

  lemma {:induction false} AdmissionInvariant(limit: int, windowMs: int, ts: seq<int>, a: int)
    requires Ascending(ts) && ts != []
    ensures var w, n, most := Window(limit, windowMs, ts).value, AdmittedFrom(limit, windowMs, ts, a), AtLeastOne(limit);
            && 1 <= w.count <= most && w.windowStart <= ts[|ts| - 1]
            && (ts[|ts| - 1] < a ==> n == 0)
            && (w.windowStart < a ==> n <= w.count - 1)
            && (a <= w.windowStart < a + windowMs ==> n <= most - 1 + w.count)
            && n <= 2 * most - 1
  {
    var front := ts[..|ts| - 1];
    if front != [] {
      AdmissionInvariant(limit, windowMs, front, a);
    }
  }

  lemma BucketAdmitsAtMost(limit: int, windowMs: int, ts: seq<int>, a: int)
    requires Ascending(ts)
    ensures AdmittedFrom(limit, windowMs, ts, a) <= 2 * AtLeastOne(limit) - 1
  {
    if ts != [] {
      AdmissionInvariant(limit, windowMs, ts, a);
    }
  }

  /** n requests at one moment. */
  function Burst(t: int, n: nat): seq<int> {
    if n == 0 then [] else Burst(t, n - 1) + [t]
  }

  /** The requests so far leave this counter and this many admissions, and none is later than t. */
  ghost predicate Reaches(limit: int, windowMs: int, ts: seq<int>, a: int, t: int, w: Counter, n: nat) {
    && ts != [] && Ascending(ts) && ts[|ts| - 1] <= t
    && Window(limit, windowMs, ts) == Some(w) && AdmittedFrom(limit, windowMs, ts, a) == n
  }

  lemma OneMore(limit: int, windowMs: int, ts: seq<int>, a: int, t: int, w: Counter, n: nat)
    requires Reaches(limit, windowMs, ts, a, t, w, n) && a <= t < a + windowMs
    ensures t - w.windowStart < windowMs && w.count < limit ==>
              Reaches(limit, windowMs, ts + [t], a, t, w.(count := w.count + 1), n + 1)
    ensures t - w.windowStart >= windowMs ==> Reaches(limit, windowMs, ts + [t], a, t, Counter(1, t), n + 1)
  {
    assert (ts + [t])[..|ts|] == ts;
  }

  lemma {:induction false} ManyMore(limit: int, windowMs: int, ts: seq<int>, a: int, t: int, w: Counter, n: nat, k: nat)
    requires Reaches(limit, windowMs, ts, a, t, w, n) && a <= t < a + windowMs
    requires t - w.windowStart < windowMs && w.count + k <= limit
    ensures Reaches(limit, windowMs, ts + Burst(t, k), a, t, w.(count := w.count + k), n + k)
    decreases k
  {
    if k == 0 {
      assert ts + Burst(t, 0) == ts;
    } else {
      var us, v := ts + Burst(t, k - 1), w.(count := w.count + k - 1);
      ManyMore(limit, windowMs, ts, a, t, w, n, k - 1);
      OneMore(limit, windowMs, us, a, t, v, n + k - 1);
      assert v.(count := v.count + 1) == w.(count := w.count + k);
      assert us + [t] == ts + Burst(t, k) by {
        assert Burst(t, k) == Burst(t, k - 1) + [t];
      }
    }
  }

  /** One request, a burst late in its window, and a burst at the start of the next reach the bound. */
  lemma BucketReachesBound(limit: int, windowMs: int) returns (ts: seq<int>)
    requires limit >= 1 && windowMs >= 2
    ensures Ascending(ts) && AdmittedFrom(limit, windowMs, ts, windowMs - 1) == 2 * limit - 1
  {
    var a := windowMs - 1;
    var first: seq<int> := [0];
    assert first[..0] == [] && first[|first| - 1] == 0 && !(a <= first[|first| - 1]);
    assert AdmittedFrom(limit, windowMs, first, a) == AdmittedFrom(limit, windowMs, first[..0], a);
    assert Reaches(limit, windowMs, first, a, a, Counter(1, 0), 0);
    ManyMore(limit, windowMs, first, a, a, Counter(1, 0), 0, limit - 1);
    var late := first + Burst(a, limit - 1);
    assert Reaches(limit, windowMs, late, a, windowMs, Counter(limit, 0), limit - 1);
    OneMore(limit, windowMs, late, a, windowMs, Counter(limit, 0), limit - 1);
    ManyMore(limit, windowMs, late + [windowMs], a, windowMs, Counter(1, windowMs), limit, limit - 1);
    ts := late + [windowMs] + Burst(windowMs, limit - 1);
  }

  // --- the limiter itself, with every bucket's traffic and its pruning ------------------------------------

  /** The times of one bucket's requests among all of them. */
  function Times(hits: seq<Hit>, h: Hit): seq<int> {
    if hits == [] then []
    else
      var last := hits[|hits| - 1];
      Times(hits[..|hits| - 1], h) + if SameBucket(last, h) then [last.nowMs] else []
  }

  lemma {:induction false} OwnIsWindow(p: Policy, hits: seq<Hit>, h: Hit)
    ensures OwnCounter(p, hits, h) == Window(LimitFor(p, h.scope), p.windowMs, Times(hits, h))
  {
    if hits != [] {
      var front, last := hits[..|hits| - 1], hits[|hits| - 1];
      OwnIsWindow(p, front, h);
      if SameBucket(last, h) {
        assert Times(hits, h)[..|Times(hits, h)| - 1] == Times(front, h);
      } else {
        assert Times(hits, h) == Times(front, h);
      }
    }
  }

  /** How many of a bucket's requests from a on, and before a + windowMs, the limiter admitted. */
  function Admitted(p: Policy, hits: seq<Hit>, h: Hit, a: int): nat {
    if hits == [] then 0
    else
      var front, last := hits[..|hits| - 1], hits[|hits| - 1];
      Admitted(p, front, h, a)
      + if SameBucket(last, h) && a <= last.nowMs < a + p.windowMs && CheckValue(p, CountersAfter(p, front), last).0.Ok?
        then 1 else 0
  }

  lemma {:induction false} TimesAscend(hits: seq<Hit>, h: Hit)
    requires ClockNeverRunsBack(hits)
    ensures Ascending(Times(hits, h))
    ensures hits != [] ==> forall i :: 0 <= i < |Times(hits, h)| ==> Times(hits, h)[i] <= hits[|hits| - 1].nowMs
  {
    if hits != [] {
      var front := hits[..|hits| - 1];
      TimesAscend(front, h);
      assert front != [] ==> front[|front| - 1].nowMs <= hits[|hits| - 1].nowMs;
    }
  }

  /** What the limiter admits of a bucket is what that bucket alone would admit. */
  lemma {:induction false} AdmittedIsOwn(p: Policy, hits: seq<Hit>, h: Hit, a: int)
    requires ClockNeverRunsBack(hits)
    ensures Admitted(p, hits, h, a) == AdmittedFrom(LimitFor(p, h.scope), p.windowMs, Times(hits, h), a)
  {
    if hits != [] {
      var front, last := hits[..|hits| - 1], hits[|hits| - 1];
      AdmittedIsOwn(p, front, h, a);
      if SameBucket(last, h) {
        assert Times(hits, h)[..|Times(hits, h)| - 1] == Times(front, h);
        assert front + [last] == hits;
        AnswerIsTheBucketsOwn(p, front, last);
        OwnIsWindow(p, front, last);
        SameTimes(front, last, h);
      } else {
        assert Times(hits, h) == Times(front, h);
      }
    }
  }

  lemma {:induction false} SameTimes(hits: seq<Hit>, g: Hit, h: Hit)
    requires SameBucket(g, h)
    ensures Times(hits, g) == Times(hits, h)
  {
    if hits != [] {
      SameTimes(hits[..|hits| - 1], g, h);
    }
  }

  /**
   * Whatever else it is asked and however often it prunes, the limiter admits at most 2 * limit - 1 requests of one
   * scope and address in any stretch of one window's length, wherever it starts (a limit below one acts as one).
   */
  lemma AdmitsAtMost(p: Policy, hits: seq<Hit>, h: Hit, a: int)
    requires ClockNeverRunsBack(hits)
    ensures var limit := if h.scope == Auth then p.authPerMinute else p.requestsPerMinute;
            Admitted(p, hits, h, a) <= if limit >= 1 then 2 * limit - 1 else 1
  {
    AdmittedIsOwn(p, hits, h, a);
    TimesAscend(hits, h);
    BucketAdmitsAtMost(LimitFor(p, h.scope), p.windowMs, Times(hits, h), a);
  }

  /** One bucket's requests at these times. */
  function HitsAt(ts: seq<int>, h: Hit): (hits: seq<Hit>)
    ensures |hits| == |ts| && forall i :: 0 <= i < |ts| ==> hits[i] == h.(nowMs := ts[i])
  {
    seq(|ts|, i requires 0 <= i < |ts| => h.(nowMs := ts[i]))
  }

  lemma {:induction false} TimesOfHits(ts: seq<int>, h: Hit)
    ensures Times(HitsAt(ts, h), h) == ts
  {
    if ts != [] {
      assert HitsAt(ts, h)[..|ts| - 1] == HitsAt(ts[..|ts| - 1], h);
      TimesOfHits(ts[..|ts| - 1], h);
    }
  }

  lemma HitsAreTimes(p: Policy, ts: seq<int>, h: Hit, a: int)
    requires Ascending(ts)
    ensures ClockNeverRunsBack(HitsAt(ts, h))
    ensures Admitted(p, HitsAt(ts, h), h, a) == AdmittedFrom(LimitFor(p, h.scope), p.windowMs, ts, a)
  {
    TimesOfHits(ts, h);
    AdmittedIsOwn(p, HitsAt(ts, h), h, a);
  }

  /** The bound is reached: every address and scope whose limit is at least one has a run that admits that many. */
  lemma BoundIsReached(p: Policy, h: Hit) returns (hits: seq<Hit>)
    requires (if h.scope == Auth then p.authPerMinute else p.requestsPerMinute) >= 1 && p.windowMs >= 2
    ensures ClockNeverRunsBack(hits)
    ensures h.scope == Auth ==> Admitted(p, hits, h, p.windowMs - 1) == 2 * p.authPerMinute - 1
    ensures h.scope == Request ==> Admitted(p, hits, h, p.windowMs - 1) == 2 * p.requestsPerMinute - 1
  {
    var ts := BucketReachesBound(LimitFor(p, h.scope), p.windowMs);
    HitsAreTimes(p, ts, h, p.windowMs - 1);
    hits := HitsAt(ts, h);
  }

  /** A burst fills one window, and no further than the limit. */
  lemma {:induction false} BurstFills(limit: int, windowMs: int, t: int, n: nat)
    requires windowMs > 0 && n > 0
    ensures Window(limit, windowMs, Burst(t, n)) == Some(Counter(if n < limit then n else AtLeastOne(limit), t))
  {
    WindowGrows(limit, windowMs, Burst(t, n - 1), t);
    if n > 1 {
      BurstFills(limit, windowMs, t, n - 1);
    }
  }

  lemma WindowGrows(limit: int, windowMs: int, ts: seq<int>, t: int)
    ensures Window(limit, windowMs, ts + [t]) == Some(CheckBucket(Window(limit, windowMs, ts), limit, windowMs, t).1)
  {
    assert (ts + [t])[..|ts|] == ts;
  }

  /** After n requests at one moment the next is let in exactly while its own scope's budget lasts. */
  lemma BudgetLastsExactly(p: Policy, h: Hit, n: nat)
    requires p.windowMs > 0
    ensures var verdict := CheckValue(p, CountersAfter(p, HitsAt(Burst(h.nowMs, n), h)), h).0;
            && (h.scope == Auth ==> (verdict == Ok <==> n == 0 || n < p.authPerMinute))
            && (h.scope == Request ==> (verdict == Ok <==> n == 0 || n < p.requestsPerMinute))
  {
    var ts := Burst(h.nowMs, n);
    BurstIsAtOnce(h.nowMs, n);
    AnswerIsTheBucketsOwn(p, HitsAt(ts, h), h);
    OwnIsWindow(p, HitsAt(ts, h), h);
    TimesOfHits(ts, h);
    if n > 0 {
      BurstFills(LimitFor(p, h.scope), p.windowMs, h.nowMs, n);
    }
  }

  lemma {:induction false} BurstIsAtOnce(t: int, n: nat)
    ensures forall i :: 0 <= i < |Burst(t, n)| ==> Burst(t, n)[i] == t
  {
    if n > 0 {
      BurstIsAtOnce(t, n - 1);
    }
  }

  /** The console's own policy. */
  const CONSOLE_POLICY := Policy(10, 240, 60_000)

  /** It lets ten sign-ins and two hundred and forty other requests through at a moment, and no more for a minute. */
  lemma ConsoleBudgets(h: Hit, n: nat)
    ensures CheckValue(CONSOLE_POLICY, CountersAfter(CONSOLE_POLICY, HitsAt(Burst(h.nowMs, n), h)), h).0 == Ok <==>
            n < if h.scope == Auth then 10 else 240
  {
    BudgetLastsExactly(CONSOLE_POLICY, h, n);
  }

  // --- the wait it asks for ------------------------------------------------------------------------------

  lemma BucketRetryIsExact(c: Option<Counter>, limit: int, windowMs: int, nowMs: int, seconds: nat)
    requires CheckBucket(c, limit, windowMs, nowMs).0.Refused?
    ensures var (verdict, after) := CheckBucket(c, limit, windowMs, nowMs);
            && c == Some(after)
            && (CheckBucket(c, limit, windowMs, nowMs + 1000 * seconds).0 == Ok <==>
                seconds >= verdict.retryAfterSeconds)
  {
  }

  /** Requests of other buckets leave a bucket's counter as it was. */
  lemma {:induction false} OthersDoNotCount(p: Policy, hits: seq<Hit>, others: seq<Hit>, h: Hit)
    requires forall i :: 0 <= i < |others| ==> !SameBucket(others[i], h)
    ensures OwnCounter(p, hits + others, h) == OwnCounter(p, hits, h)
    decreases |others|
  {
    if others == [] {
      assert hits + others == hits;
    } else {
      var front := others[..|others| - 1];
      assert (hits + others)[..|hits + others| - 1] == hits + front;
      OthersDoNotCount(p, hits, front, h);
    }
  }

  lemma {:induction false} OwnCounterOf(p: Policy, hits: seq<Hit>, g: Hit, h: Hit)
    requires SameBucket(g, h)
    ensures OwnCounter(p, hits, g) == OwnCounter(p, hits, h)
  {
    if hits != [] {
      OwnCounterOf(p, hits[..|hits| - 1], g, h);
    }
  }

  /**
   * A refused caller that waits the seconds it was told is admitted, whatever other scopes and addresses ask
   * meanwhile and however often the limiter prunes; and no smaller whole number of seconds is enough.
   */
  lemma RetryAfterIsExact(p: Policy, hits: seq<Hit>, h: Hit, others: seq<Hit>, seconds: nat)
    requires CheckValue(p, CountersAfter(p, hits), h).0.Refused?
    requires forall i :: 0 <= i < |others| ==> !SameBucket(others[i], h)
    requires ClockNeverRunsBack(hits + [h] + others + [h.(nowMs := h.nowMs + 1000 * seconds)])
    ensures CheckValue(p, CountersAfter(p, hits + [h] + others), h.(nowMs := h.nowMs + 1000 * seconds)).0 == Ok <==>
            seconds >= CheckValue(p, CountersAfter(p, hits), h).0.retryAfterSeconds
  {
    var later := h.(nowMs := h.nowMs + 1000 * seconds);
    var so := hits + [h];
    var all := so + others + [later];
    assert all[..|so|] == so;
    ClockOfPrefix(all, |so|);
    AnswerIsTheBucketsOwn(p, hits, h);
    AnswerIsTheBucketsOwn(p, so + others, later);
    OwnCounterOf(p, so + others, later, h);
    OthersDoNotCount(p, so, others, h);
    assert so[..|hits|] == hits;
    BucketRetryIsExact(OwnCounter(p, hits, h), LimitFor(p, h.scope), p.windowMs, h.nowMs, seconds);
  }

  lemma ClockOfPrefix(hits: seq<Hit>, n: nat)
    requires ClockNeverRunsBack(hits) && n <= |hits|
    ensures ClockNeverRunsBack(hits[..n])
  {
  }
}
