/** The companion server's limiter for compiles: a token bucket, the Retry-After header, and a slot channel. */
module CompileLimiter {
  import opened TokenBucket

  const NANOS_PER_SECOND := 1_000_000_000
  const COMPILE_SLOTS := 2
  const COMPILE_RATE_BURST := 3
  const LLM_SLOTS := 1
  const LLM_RATE_BURST := 5
  const RATE_PER_MIN := 60

  /** Tokens per nanosecond from a rate per minute. */
  function LimitsOf(burst: real, ratePerMin: real): Limits {
    Limits(burst, ratePerMin / 60.0 / NANOS_PER_SECOND as real)
  }

  /** The header in seconds: the wait rounded up, and at least one. */
  function RetryAfter(wait: nat): nat {
    var secs := (wait + NANOS_PER_SECOND - 1) / NANOS_PER_SECOND;
    if secs < 1 then 1 else secs
  }

  /** How asking for a slot goes: taken, given up at the deadline, or still waiting for one. */
  datatype Turn = Acquired | Expired | Blocked

  datatype Response = RateLimited(retryAfter: nat) | TooManyConcurrent | Waiting | Started

  function ResponseTo(w: Turn): Response {
    match w case Acquired => Started case Expired => TooManyConcurrent case Blocked => Waiting
  }

  /** The header is never shorter than the reported wait, and no shorter positive number of seconds would do. */
  lemma RetryAfterIsLeast(wait: nat, secs: nat)
    requires secs > 0
    ensures RetryAfter(wait) <= secs <==> wait <= secs * NANOS_PER_SECOND
  {
    if wait <= secs * NANOS_PER_SECOND {
      assert (wait + NANOS_PER_SECOND - 1) / NANOS_PER_SECOND <= secs;
    }
  }

  /** A retry after the header's seconds is admitted, unless the wait lost a fraction of a nanosecond
      and what remained was a whole number of seconds. */
  lemma RetryAfterAdmitsIff(l: Limits, b: Bucket, now: int)
    requires l.perTick > 0.0 && l.burst >= 1.0 && !Admits(l, b, now)
    ensures Wait(l, b, now) >= 0
    ensures Admits(l, Call(l, b, now), now + RetryAfter(Wait(l, b, now)) * NANOS_PER_SECOND)
            <==> Wait(l, b, now) == 0 || Wait(l, b, now) % NANOS_PER_SECOND != 0 || Whole(ExactWait(l, b, now))
  {
    RetryAtWaitIff(l, b, now);
    var wait, header := Wait(l, b, now), RetryAfter(Wait(l, b, now)) * NANOS_PER_SECOND;
    assert wait <= header by { RetryAfterIsLeast(wait, RetryAfter(wait)); }
    if wait == 0 {
      RetryIff(l, b, now, now + header);
    } else if wait % NANOS_PER_SECOND == 0 {
      assert header == wait;
    } else {
      assert header >= wait + 1;
      RetryIff(l, b, now, now + header);
    }
  }

  /** The rate of both limiters shipped, for compiles and for completions, makes every wait exact, so over
      every run the header is long enough, whatever the burst. */
  lemma ShippedHeaderIsEnough(burst: nat, start: int, times: seq<int>, i: nat)
    requires var l := LimitsOf(burst as real, RATE_PER_MIN as real);
             burst >= 1 && i < |times| && !AdmitsNth(l, Bucket(l.burst, start), times, i)
    ensures var l := LimitsOf(burst as real, RATE_PER_MIN as real);
            var b := Before(l, Bucket(l.burst, start), times, i);
            Wait(l, b, times[i]) >= 0
            && Admits(l, Call(l, b, times[i]), times[i] + RetryAfter(Wait(l, b, times[i])) * NANOS_PER_SECOND)
  {
    var l := LimitsOf(burst as real, RATE_PER_MIN as real);
    assert WholeRate(l, NANOS_PER_SECOND, burst);
    RunsStayOnGrid(l, Bucket(l.burst, start), times, i, NANOS_PER_SECOND, burst);
    RetryAfterAdmitsIff(l, Before(l, Bucket(l.burst, start), times, i), times[i]);
  }

  /** With another rate than the one shipped the header can be too short: at seven a minute, a token takes
      a fraction of a nanosecond more than 8 seconds allow. */
  lemma HeaderCanFallShort()
    ensures var l, now := LimitsOf(1.0, 7.0), 571_428_571;
            var b := Call(l, Bucket(1.0, 0), 0);
            Admits(l, Bucket(1.0, 0), 0) && !Admits(l, b, now) && Wait(l, b, now) == 8 * NANOS_PER_SECOND
            && !Admits(l, Call(l, b, now), now + RetryAfter(Wait(l, b, now)) * NANOS_PER_SECOND)
  {
    var l, now := LimitsOf(1.0, 7.0), 571_428_571;
    var b := Call(l, Bucket(1.0, 0), 0);
    assert b == Bucket(0.0, 0);
    assert Refill(l, b, now) == 571_428_571.0 * 7.0 / 60_000_000_000.0;
    assert 8_000_000_000.0 < ExactWait(l, b, now) < 8_000_000_001.0;
    RetryAfterAdmitsIff(l, b, now);
  }

  class Limiter {
    const slots: nat
    const burst: real
    const ratePerMin: real
    var inUse: nat
    var tokens: real
    var refilledAt: int

    predicate Valid()
      reads this
    {
      0.0 <= tokens <= burst && ratePerMin > 0.0 && inUse <= slots
    }

    function Held(): Bucket
      reads this
    {
      Bucket(tokens, refilledAt)
    }

    constructor (slots: nat, burst: nat, ratePerMin: nat, now: int)
      requires ratePerMin > 0
      ensures Valid() && Held() == Bucket(burst as real, now) && inUse == 0
      ensures this.slots == slots && this.burst == burst as real && this.ratePerMin == ratePerMin as real
    {
      this.slots, this.burst, this.ratePerMin := slots, burst as real, ratePerMin as real;
      inUse, tokens, refilledAt := 0, burst as real, now;
    }

    /** One call at `now`; the wait is meaningful on rejection only. */
    method Allow(now: int) returns (wait: int, ok: bool)
      requires Valid() && refilledAt <= now
      modifies this`tokens, this`refilledAt
      ensures Valid()
      ensures var l := LimitsOf(burst, ratePerMin);
              && Held() == Call(l, old(Held()), now) && ok == Admits(l, old(Held()), now)
              && wait == if ok then 0 else Wait(l, old(Held()), now)
    {
      var elapsed := (now - refilledAt) as real / NANOS_PER_SECOND as real;
      ghost var l := LimitsOf(burst, ratePerMin);
      assert elapsed * ratePerMin / 60.0 == Gain(l, refilledAt, now) >= 0.0;
      tokens := tokens + elapsed * ratePerMin / 60.0;
      if tokens > burst { tokens := burst; }
      refilledAt := now;
      if tokens >= 1.0 {
        tokens := tokens - 1.0;
        return 0, true;
      }
      var needed := 1.0 - tokens;
      var secs := needed * 60.0 / ratePerMin;
      SameWait(needed, ratePerMin);
      return (secs * NANOS_PER_SECOND as real).Floor, false;
    }

    /** One look at the channel and the deadline; if both are ready, either may be chosen. */
    method AcquireSlot(expired: bool, prefersDeadline: bool) returns (w: Turn)
      requires Valid()
      modifies this`inUse
      ensures Valid() && inUse == old(inUse) + if w.Acquired? then 1 else 0
      ensures w.Acquired? <==> old(inUse) < slots && !(expired && prefersDeadline)
      ensures w.Blocked? <==> old(inUse) == slots && !expired
    {
      if inUse < slots && !(expired && prefersDeadline) {
        inUse := inUse + 1;
        return Acquired;
      }
      return if expired then Expired else Blocked;
    }

    method ReleaseSlot()
      requires Valid() && inUse > 0
      modifies this`inUse
      ensures Valid() && inUse == old(inUse) - 1
    {
      inUse := inUse - 1;
    }

    /** The admission part of a compile request: a token first, then a slot, each with its own refusal. */
    method Admit(now: int, expired: bool, prefersDeadline: bool) returns (r: Response)
      requires Valid() && refilledAt <= now
      modifies this
      ensures Valid() && Held() == Call(LimitsOf(burst, ratePerMin), old(Held()), now)
      ensures r.RateLimited? <==> !Admits(LimitsOf(burst, ratePerMin), old(Held()), now)
      ensures r.RateLimited? ==> var w := Wait(LimitsOf(burst, ratePerMin), old(Held()), now);
                                 w >= 0 && r.retryAfter == RetryAfter(w)
      ensures r.Started? <==> !r.RateLimited? && old(inUse) < slots && !(expired && prefersDeadline)
      ensures r.Waiting? <==> !r.RateLimited? && old(inUse) == slots && !expired
      ensures inUse == old(inUse) + if r.Started? then 1 else 0
    {
      var wait, ok := Allow(now);
      if !ok {
        ghost var l := LimitsOf(burst, ratePerMin);
        WaitIsPositive(l, old(Held()), now);
        return RateLimited(RetryAfter(wait));
      }
      var w := AcquireSlot(expired, prefersDeadline);
      return ResponseTo(w);
    }

    /** A waiting request looks again when a slot is given back or its deadline passes; it takes no second
        token, and a free slot before the deadline is never refused. */
    method Resume(expired: bool, prefersDeadline: bool) returns (r: Response)
      requires Valid()
      modifies this`inUse
      ensures Valid() && Held() == old(Held()) && !r.RateLimited?
      ensures r.Started? <==> old(inUse) < slots && !(expired && prefersDeadline)
      ensures r.TooManyConcurrent? ==> expired
      ensures inUse == old(inUse) + if r.Started? then 1 else 0
    {
      var w := AcquireSlot(expired, prefersDeadline);
      return ResponseTo(w);
    }
  }

  /** The limiter of the compile endpoint. */
  method NewCompileLimiter(now: int) returns (c: Limiter)
    ensures fresh(c) && c.Valid() && c.Held() == Bucket(3.0, now) && c.slots == 2 && c.inUse == 0
    ensures LimitsOf(c.burst, c.ratePerMin) == Limits(3.0, 1.0 / 1_000_000_000.0)
  {
    c := new Limiter(COMPILE_SLOTS, COMPILE_RATE_BURST, RATE_PER_MIN, now);
  }

  /** The limiter of the completion endpoint. */
  method NewLlmLimiter(now: int) returns (c: Limiter)
    ensures fresh(c) && c.Valid() && c.Held() == Bucket(5.0, now) && c.slots == 1 && c.inUse == 0
    ensures LimitsOf(c.burst, c.ratePerMin) == Limits(5.0, 1.0 / 1_000_000_000.0)
  {
    c := new Limiter(LLM_SLOTS, LLM_RATE_BURST, RATE_PER_MIN, now);
  }

  lemma WaitIsPositive(l: Limits, b: Bucket, now: int)
    requires l.perTick > 0.0 && !Admits(l, b, now)
    ensures Wait(l, b, now) >= 0
  {
    assert ExactWait(l, b, now) > 0.0;
  }

  lemma SameWait(needed: real, ratePerMin: real)
    requires ratePerMin > 0.0
    ensures needed * 60.0 / ratePerMin * NANOS_PER_SECOND as real
            == needed / (ratePerMin / 60.0 / NANOS_PER_SECOND as real)
  {
    var x, y, r := needed * 60.0 / ratePerMin * NANOS_PER_SECOND as real,
      needed / (ratePerMin / 60.0 / NANOS_PER_SECOND as real), ratePerMin;
    assert y * r == needed * 60.0 * NANOS_PER_SECOND as real;
    assert x * r == needed * 60.0 * NANOS_PER_SECOND as real;
  }
}
