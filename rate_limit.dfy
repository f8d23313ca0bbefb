/**
 * The fixed-window rate limiter of lib/rate-limit/index.ts.
 *
 * A limiter keeps, per identifier, the number of checks admitted in the current
 * window and the instant (in milliseconds) the window ends. The clock is the
 * `now` parameter of each operation. The pure functions below describe one
 * operation on the table; the class `RateLimiter` performs it in place and
 * promises to agree with them.
 */
module RateLimit {

  /** One identifier's window: checks admitted so far and the instant it ends. */
  datatype Entry = Entry(count: int, resetAt: int)

  /** What `check` answers. */
  datatype CheckResult = CheckResult(allowed: bool, remaining: int, resetAt: int)

  /** The answer of a check together with the table it leaves behind. */
  datatype CheckOutcome = CheckOutcome(result: CheckResult, limits: map<string, Entry>)

  /** Window length and ceiling of a configured limiter. */
  datatype Limits = Limits(windowMs: int, maxRequests: int)

  /** The four limiters the application creates. */
  const ReviewLimits := Limits(3600000, 5)    // 5 per hour
  const CommentLimits := Limits(3600000, 20)  // 20 per hour
  const ReportLimits := Limits(86400000, 10)  // 10 per day
  const AuthLimits := Limits(900000, 5)       // 5 per 15 minutes

  /** The largest count a stored window can reach: `maxRequests`, or 1 when
      `maxRequests` is below 1, because a fresh window always stores 1. */
  function Ceiling(maxRequests: int): int {
    if maxRequests < 1 then 1 else maxRequests
  }

  /** Every stored window has admitted at least one check and at most the ceiling. */
  predicate CountsInRange(limits: map<string, Entry>, maxRequests: int) {
    forall id :: id in limits ==> 1 <= limits[id].count <= Ceiling(maxRequests)
  }

  /** A check opens a fresh window when the identifier has no window or its
      window ended strictly before `now`. */
  predicate OpensWindow(limits: map<string, Entry>, id: string, now: int) {
    id !in limits || now > limits[id].resetAt
  }

  /** `check(identifier)` at time `now`. */
  function CheckLimits(limits: map<string, Entry>, windowMs: int, maxRequests: int, id: string, now: int): (c: CheckOutcome)
    ensures c.limits.Keys == limits.Keys + {id}
    ensures forall k :: k in limits && k != id ==> c.limits[k] == limits[k]
    ensures c.result.resetAt == c.limits[id].resetAt
    ensures c.result.allowed ==> c.result.remaining == maxRequests - c.limits[id].count
    ensures !c.result.allowed ==> c.result.remaining == 0 && c.limits == limits
    ensures CountsInRange(limits, maxRequests) ==> CountsInRange(c.limits, maxRequests)
  {
    if OpensWindow(limits, id, now) then
      var resetAt := now + windowMs;
      CheckOutcome(CheckResult(true, maxRequests - 1, resetAt), limits[id := Entry(1, resetAt)])
    else
      var entry := limits[id];
      if entry.count >= maxRequests then
        CheckOutcome(CheckResult(false, 0, entry.resetAt), limits)
      else
        var count := entry.count + 1;
        CheckOutcome(CheckResult(true, maxRequests - count, entry.resetAt), limits[id := Entry(count, entry.resetAt)])
  }

  /** The table after `cleanup` at time `now`: the windows that have not ended. */
  function SweepExpired(limits: map<string, Entry>, now: int): (swept: map<string, Entry>)
    ensures forall id :: id in swept <==> id in limits && now <= limits[id].resetAt
    ensures forall id :: id in swept ==> swept[id] == limits[id]
  {
    map id | id in limits && !(now > limits[id].resetAt) :: limits[id]
  }

  /** A check opens a fresh window exactly when `OpensWindow` holds; a fresh
      window holds one admitted check, ends `windowMs` after `now` and is
      always admitted. Otherwise the window's end is kept. */
  lemma FreshWindow(limits: map<string, Entry>, windowMs: int, maxRequests: int, id: string, now: int)
    ensures var c := CheckLimits(limits, windowMs, maxRequests, id, now);
      OpensWindow(limits, id, now) ==>
        c.result == CheckResult(true, maxRequests - 1, now + windowMs) && c.limits[id] == Entry(1, now + windowMs)
    ensures var c := CheckLimits(limits, windowMs, maxRequests, id, now);
      !OpensWindow(limits, id, now) ==> c.limits[id].resetAt == limits[id].resetAt
  {
  }

  /** A check made at the very instant a window ends still belongs to that window. */
  lemma CheckAtResetAtKeepsWindow(limits: map<string, Entry>, windowMs: int, maxRequests: int, id: string, now: int)
    requires id in limits && now == limits[id].resetAt
    ensures !OpensWindow(limits, id, now)
    ensures CheckLimits(limits, windowMs, maxRequests, id, now).result.resetAt == limits[id].resetAt
  {
  }

  /** Inside a window, a check is refused exactly when the window is full; a
      refusal answers 0 remaining and the window's end and changes nothing,
      an admission adds exactly one to the count. */
  lemma CheckInsideWindow(limits: map<string, Entry>, windowMs: int, maxRequests: int, id: string, now: int)
    requires !OpensWindow(limits, id, now)
    ensures var c := CheckLimits(limits, windowMs, maxRequests, id, now);
      && (!c.result.allowed <==> limits[id].count >= maxRequests)
      && (!c.result.allowed ==> c.result == CheckResult(false, 0, limits[id].resetAt) && c.limits == limits)
      && (c.result.allowed ==> c.limits[id] == Entry(limits[id].count + 1, limits[id].resetAt))
  {
  }

  /** `reset(id)` forgets the identifier, so its next check opens a fresh window;
      no other identifier is affected. */
  lemma ResetThenCheck(limits: map<string, Entry>, windowMs: int, maxRequests: int, id: string, now: int)
    ensures forall k :: k in limits && k != id ==> k in limits - {id} && (limits - {id})[k] == limits[k]
    ensures CheckLimits(limits - {id}, windowMs, maxRequests, id, now).result == CheckResult(true, maxRequests - 1, now + windowMs)
  {
  }

  /** With a ceiling of at least one, every admitted check leaves a non-negative
      number of remaining checks. */
  lemma RemainingNonNegative(limits: map<string, Entry>, windowMs: int, maxRequests: int, id: string, now: int)
    requires maxRequests >= 1 && CountsInRange(limits, maxRequests)
    ensures 0 <= CheckLimits(limits, windowMs, maxRequests, id, now).result.remaining < maxRequests
  {
  }

  /** `cleanup` cannot be observed by later checks: a check after a sweep at an
      earlier or equal instant answers exactly as it would have without it. */
  lemma CleanupInvisibleToCheck(limits: map<string, Entry>, windowMs: int, maxRequests: int, id: string, swept: int, now: int)
    requires swept <= now
    ensures var c := CheckLimits(SweepExpired(limits, swept), windowMs, maxRequests, id, now);
      var d := CheckLimits(limits, windowMs, maxRequests, id, now);
      c.result == d.result && c.limits[id] == d.limits[id]
  {
  }

  /** The number of checks of `id` at the instants `times` (in order) that are admitted. */
  function Admitted(limits: map<string, Entry>, windowMs: int, maxRequests: int, id: string, times: seq<int>): nat
    decreases |times|
  {
    if times == [] then 0
    else
      var c := CheckLimits(limits, windowMs, maxRequests, id, times[0]);
      (if c.result.allowed then 1 else 0) + Admitted(c.limits, windowMs, maxRequests, id, times[1..])
  }

  /** Within an open window whose count is `count`, at most `maxRequests - count`
      further checks are admitted. */
  lemma {:induction false} AdmittedInsideWindow(limits: map<string, Entry>, windowMs: int, maxRequests: int, id: string, times: seq<int>)
    requires id in limits && limits[id].count <= maxRequests
    requires forall i :: 0 <= i < |times| ==> times[i] <= limits[id].resetAt
    ensures Admitted(limits, windowMs, maxRequests, id, times) <= maxRequests - limits[id].count
    decreases |times|
  {
    if times != [] {
      var c := CheckLimits(limits, windowMs, maxRequests, id, times[0]);
      assert c.limits[id].resetAt == limits[id].resetAt;
      AdmittedInsideWindow(c.limits, windowMs, maxRequests, id, times[1..]);
    }
  }

  /** At most `maxRequests` checks of one identifier are admitted in one window:
      the check at `start` opens the window, and every later check up to the
      window's end `start + windowMs` belongs to it. */
  lemma {:induction false} AtMostMaxPerWindow(limits: map<string, Entry>, windowMs: int, maxRequests: int, id: string, start: int, later: seq<int>)
    requires maxRequests >= 1
    requires OpensWindow(limits, id, start)
    requires forall i :: 0 <= i < |later| ==> later[i] <= start + windowMs
    ensures Admitted(limits, windowMs, maxRequests, id, [start] + later) <= maxRequests
  {
    var c := CheckLimits(limits, windowMs, maxRequests, id, start);
    assert ([start] + later)[1..] == later;
    AdmittedInsideWindow(c.limits, windowMs, maxRequests, id, later);
  }

  /** The four configured limiters admit at most 5 reviews an hour, 20 comments
      an hour, 10 reports a day and 5 sign-in attempts per 15 minutes. */
  lemma ConfiguredLimitersBounded(limits: map<string, Entry>, id: string, start: int, later: seq<int>)
    requires OpensWindow(limits, id, start)
    ensures (forall i :: 0 <= i < |later| ==> later[i] <= start + 3600000) ==>
      Admitted(limits, ReviewLimits.windowMs, ReviewLimits.maxRequests, id, [start] + later) <= 5
    ensures (forall i :: 0 <= i < |later| ==> later[i] <= start + 3600000) ==>
      Admitted(limits, CommentLimits.windowMs, CommentLimits.maxRequests, id, [start] + later) <= 20
    ensures (forall i :: 0 <= i < |later| ==> later[i] <= start + 86400000) ==>
      Admitted(limits, ReportLimits.windowMs, ReportLimits.maxRequests, id, [start] + later) <= 10
    ensures (forall i :: 0 <= i < |later| ==> later[i] <= start + 900000) ==>
      Admitted(limits, AuthLimits.windowMs, AuthLimits.maxRequests, id, [start] + later) <= 5
  {
    if forall i :: 0 <= i < |later| ==> later[i] <= start + 3600000 {
      AtMostMaxPerWindow(limits, 3600000, 5, id, start, later);
      AtMostMaxPerWindow(limits, 3600000, 20, id, start, later);
    }
    if forall i :: 0 <= i < |later| ==> later[i] <= start + 86400000 {
      AtMostMaxPerWindow(limits, 86400000, 10, id, start, later);
    }
    if forall i :: 0 <= i < |later| ==> later[i] <= start + 900000 {
      AtMostMaxPerWindow(limits, 900000, 5, id, start, later);
    }
  }

  /** The documented scenario for a 1-second window of 3: checks of "u1" at
      0, 10 and 20 ms leave 2, 1 and 0 remaining, a fourth at 30 ms is refused,
      a check of "u2" meanwhile is unaffected, and the first check after the
      window's end opens a fresh window with 2 remaining. */
  lemma ThreePerSecondScenario()
    ensures var c1 := CheckLimits(map[], 1000, 3, "u1", 0);
      var c2 := CheckLimits(c1.limits, 1000, 3, "u1", 10);
      var c3 := CheckLimits(c2.limits, 1000, 3, "u1", 20);
      var c4 := CheckLimits(c3.limits, 1000, 3, "u1", 30);
      var v := CheckLimits(c4.limits, 1000, 3, "u2", 40);
      var c5 := CheckLimits(v.limits, 1000, 3, "u1", 1001);
      && c1.result == CheckResult(true, 2, 1000)
      && c2.result == CheckResult(true, 1, 1000)
      && c3.result == CheckResult(true, 0, 1000)
      && c4.result == CheckResult(false, 0, 1000)
      && v.result == CheckResult(true, 2, 1040)
      && c5.result == CheckResult(true, 2, 2001)
  {
    var c1 := CheckLimits(map[], 1000, 3, "u1", 0);
    assert c1.limits["u1"] == Entry(1, 1000);
    var c2 := CheckLimits(c1.limits, 1000, 3, "u1", 10);
    assert c2.limits["u1"] == Entry(2, 1000);
    var c3 := CheckLimits(c2.limits, 1000, 3, "u1", 20);
    assert c3.limits["u1"] == Entry(3, 1000);
    var c4 := CheckLimits(c3.limits, 1000, 3, "u1", 30);
    var v := CheckLimits(c4.limits, 1000, 3, "u2", 40);
    assert v.limits["u1"] == Entry(3, 1000);
  }

  /** The limiter object: the table of windows is the field `limits`, which
      `check`, `reset` and `cleanup` change in place. */
  class RateLimiter {
    var limits: map<string, Entry>
    const windowMs: int
    const maxRequests: int

    /** Every stored window holds between 1 and the ceiling admitted checks. */
    ghost predicate Valid()
      reads this
    {
      CountsInRange(limits, maxRequests)
    }

    constructor (windowMs: int, maxRequests: int)
      ensures this.windowMs == windowMs && this.maxRequests == maxRequests
      ensures limits == map[] && Valid()
    {
      this.windowMs := windowMs;
      this.maxRequests := maxRequests;
      limits := map[];
    }

    method Check(id: string, now: int) returns (r: CheckResult)
      requires Valid()
      modifies this
      ensures Valid()
      ensures CheckOutcome(r, limits) == CheckLimits(old(limits), windowMs, maxRequests, id, now)
    {
      if id !in limits || now > limits[id].resetAt {
        var resetAt := now + windowMs;
        limits := limits[id := Entry(1, resetAt)];
        return CheckResult(true, maxRequests - 1, resetAt);
      }
      var entry := limits[id];
      if entry.count >= maxRequests {
        return CheckResult(false, 0, entry.resetAt);
      }
      limits := limits[id := entry.(count := entry.count + 1)];
      r := CheckResult(true, maxRequests - limits[id].count, entry.resetAt);
    }

    method Reset(id: string)
      requires Valid()
      modifies this
      ensures Valid()
      ensures limits == old(limits) - {id}
    {
      limits := limits - {id};
    }

    method Cleanup(now: int)
      requires Valid()
      modifies this
      ensures Valid()
      ensures limits == SweepExpired(old(limits), now)
    {
      var pending := limits.Keys;
      while pending != {}
        invariant pending <= old(limits).Keys && limits.Keys <= old(limits).Keys
        invariant forall k :: k in limits ==> limits[k] == old(limits)[k]
        invariant forall k :: k in old(limits) ==>
          (k in limits <==> k in pending || !(now > old(limits)[k].resetAt))
        invariant Valid()
        decreases pending
      {
        var k :| k in pending;
        if now > limits[k].resetAt {
          limits := limits - {k};
        }
        pending := pending - {k};
      }
    }
  }
}
