/**
 * The per-client fixed-window rate limiter: a map from client address to the number of
 * requests admitted in the current window, refused once the count reaches the limit and
 * cleared wholesale by `reset`.
 */
module RateLimiter {

  /** `requestCounts.getOrDefault(ip, 0)`. */
  function CountOf(counts: map<string, int>, ip: string): int
  {
    if ip in counts then counts[ip] else 0
  }

  /** The invariant the limiter keeps: every stored count lies in 1..max. */
  ghost predicate WithinLimit(counts: map<string, int>, max: int)
  {
    forall ip :: ip in counts ==> 1 <= counts[ip] <= max
  }

  /**
   * One `isAllowed(ip)` step on the counter map: whether the request is admitted,
   * and the map afterwards.
   */
  function Admit(counts: map<string, int>, max: int, ip: string): (r: (bool, map<string, int>))
    ensures r.0 <==> CountOf(counts, ip) < max
    ensures !r.0 ==> r.1 == counts
    ensures r.0 ==> r.1.Keys == counts.Keys + {ip} && r.1[ip] == CountOf(counts, ip) + 1
    ensures forall k :: k != ip ==> CountOf(r.1, k) == CountOf(counts, k)
  {
    var count := CountOf(counts, ip);
    if count >= max then (false, counts) else (true, counts[ip := count + 1])
  }

  /** The answers of `n` consecutive `isAllowed(ip)` calls, and the map they leave behind. */
  function Burst(counts: map<string, int>, max: int, ip: string, n: nat): (seq<bool>, map<string, int>)
    decreases n
  {
    if n == 0 then ([], counts)
    else
      var step := Admit(counts, max, ip);
      var rest := Burst(step.1, max, ip, n - 1);
      ([step.0] + rest.0, rest.1)
  }

  /** Admitting a request keeps every count within 1..max. */
  lemma AdmitKeepsLimit(counts: map<string, int>, max: int, ip: string)
    requires WithinLimit(counts, max)
    ensures WithinLimit(Admit(counts, max, ip).1, max)
  {
  }

  /**
   * From a count of `c` for `ip`, the i-th of n consecutive calls is admitted exactly when
   * c + i < max: admission raises the count by one, refusal leaves it where it is.
   */
  lemma {:induction false} BurstAnswers(counts: map<string, int>, max: int, ip: string, n: nat)
    ensures |Burst(counts, max, ip, n).0| == n
    ensures forall i :: 0 <= i < n ==> Burst(counts, max, ip, n).0[i] == (CountOf(counts, ip) + i < max)
    ensures CountOf(Burst(counts, max, ip, n).1, ip) ==
            if CountOf(counts, ip) >= max then CountOf(counts, ip)
            else if CountOf(counts, ip) + n <= max then CountOf(counts, ip) + n
            else max
    decreases n
  {
    if n > 0 {
      var c := CountOf(counts, ip);
      var next := Admit(counts, max, ip).1;
      BurstAnswers(next, max, ip, n - 1);
      var rest := Burst(next, max, ip, n - 1).0;
      assert Burst(counts, max, ip, n).0 == [c < max] + rest;
      forall i | 0 <= i < n
        ensures Burst(counts, max, ip, n).0[i] == (c + i < max)
      {
        if i > 0 {
          assert Burst(counts, max, ip, n).0[i] == rest[i - 1];
        }
      }
    }
  }

  /** A burst for one address leaves every other address's count as it was. */
  lemma {:induction false} BurstLeavesOthers(counts: map<string, int>, max: int, ip: string, n: nat, other: string)
    requires other != ip
    ensures CountOf(Burst(counts, max, ip, n).1, other) == CountOf(counts, other)
    decreases n
  {
    if n > 0 {
      BurstLeavesOthers(Admit(counts, max, ip).1, max, ip, n - 1, other);
    }
  }

  /**
   * In a fresh window (an empty map) the first `max` requests from one address are admitted
   * and request number max + 1 is refused.
   */
  lemma FreshWindowAdmitsExactlyMax(max: nat, ip: string)
    ensures var answers := Burst(map[], max, ip, max + 1).0;
            |answers| == max + 1 &&
            (forall i :: 0 <= i < max ==> answers[i]) &&
            !answers[max]
  {
    BurstAnswers(map[], max, ip, max + 1);
  }

  /** A limit of zero or less refuses every request and never stores a count. */
  lemma {:induction false} NonPositiveLimitRefusesAll(counts: map<string, int>, max: int, ip: string, n: nat)
    requires max <= 0 && WithinLimit(counts, max)
    ensures counts == map[]
    ensures Burst(counts, max, ip, n).1 == map[]
    ensures |Burst(counts, max, ip, n).0| == n
    ensures forall i :: 0 <= i < n ==> !Burst(counts, max, ip, n).0[i]
    decreases n
  {
    BurstAnswers(counts, max, ip, n);
    if n > 0 {
      NonPositiveLimitRefusesAll(counts, max, ip, n - 1);
    }
  }

  /** `RateLimiterServiceImpl`: the counter map and the configured limit. */
  class RateLimiterService {
    var requestCounts: map<string, int>
    const maxRequestsPerMinute: int

    ghost predicate Valid()
      reads this
    {
      WithinLimit(requestCounts, maxRequestsPerMinute)
    }

    constructor (maxRequestsPerMinute: int)
      ensures Valid()
      ensures this.maxRequestsPerMinute == maxRequestsPerMinute && requestCounts == map[]
    {
      this.maxRequestsPerMinute := maxRequestsPerMinute;
      requestCounts := map[];
    }

    /** `isAllowed`: refuse once the address's count has reached the limit, else count the request. */
    method IsAllowed(ip: string) returns (allowed: bool)
      requires Valid()
      modifies this
      ensures Valid()
      ensures (allowed, requestCounts) == Admit(old(requestCounts), maxRequestsPerMinute, ip)
    {
      var count := CountOf(requestCounts, ip);
      if count >= maxRequestsPerMinute {
        return false;
      }
      requestCounts := requestCounts[ip := count + 1];
      AdmitKeepsLimit(old(requestCounts), maxRequestsPerMinute, ip);
      return true;
    }

    /** `reset`: start a new window for every address. */
    method Reset()
      modifies this
      ensures Valid()
      ensures requestCounts == map[]
      ensures maxRequestsPerMinute > 0 ==> forall ip :: Admit(requestCounts, maxRequestsPerMinute, ip).0
    {
      requestCounts := map[];
    }
  }

  /** A client of the limiter: a full window, then a reset, then one more request. */
  method LimitThenReset(limiter: RateLimiterService, ip: string) returns (answers: seq<bool>, afterReset: bool)
    requires limiter.Valid() && limiter.requestCounts == map[] && limiter.maxRequestsPerMinute >= 1
    modifies limiter
    ensures |answers| == limiter.maxRequestsPerMinute + 1
    ensures forall i :: 0 <= i < limiter.maxRequestsPerMinute ==> answers[i]
    ensures !answers[limiter.maxRequestsPerMinute]
    ensures afterReset
  {
    var max := limiter.maxRequestsPerMinute;
    answers := [];
    while |answers| < max + 1
      invariant limiter.Valid() && limiter.maxRequestsPerMinute == max
      invariant |answers| <= max + 1
      invariant (answers, limiter.requestCounts) == Burst(map[], max, ip, |answers|)
      decreases max + 1 - |answers|
    {
      var ok := limiter.IsAllowed(ip);
      BurstSnoc(map[], max, ip, |answers|);
      answers := answers + [ok];
    }
    FreshWindowAdmitsExactlyMax(max, ip);
    limiter.Reset();
    afterReset := limiter.IsAllowed(ip);
  }

  /** One more call at the end of a burst extends its answers by that call's answer. */
  lemma {:induction false} BurstSnoc(counts: map<string, int>, max: int, ip: string, n: nat)
    ensures Burst(counts, max, ip, n + 1) ==
            (Burst(counts, max, ip, n).0 + [Admit(Burst(counts, max, ip, n).1, max, ip).0],
             Admit(Burst(counts, max, ip, n).1, max, ip).1)
    decreases n
  {
    if n > 0 {
      var step := Admit(counts, max, ip);
      BurstSnoc(step.1, max, ip, n - 1);
      assert Burst(counts, max, ip, n) == ([step.0] + Burst(step.1, max, ip, n - 1).0, Burst(step.1, max, ip, n - 1).1);
      assert Burst(counts, max, ip, n + 1) == ([step.0] + Burst(step.1, max, ip, n).0, Burst(step.1, max, ip, n).1);
      var prefix := Burst(step.1, max, ip, n - 1);
      var last := Admit(prefix.1, max, ip);
      assert [step.0] + (prefix.0 + [last.0]) == ([step.0] + prefix.0) + [last.0];
    } else {
      var step := Admit(counts, max, ip);
      assert Burst(counts, max, ip, 1) == ([step.0] + [], step.1);
      assert [step.0] + [] == [] + [step.0];
    }
  }
}
