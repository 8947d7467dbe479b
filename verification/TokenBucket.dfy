/**
 * A token bucket over real tokens and integer clock ticks, refilled lazily on each call. The companion
 * server counts nanoseconds, the WebSocket budget milliseconds.
 */
module TokenBucket {
  datatype Limits = Limits(burst: real, perTick: real)

  datatype Bucket = Bucket(tokens: real, refilledAt: int)

  predicate Sane(l: Limits) { 0.0 <= l.burst && 0.0 <= l.perTick }

  /** What the clock adds between two moments, before the cap. */
  function Gain(l: Limits, from: int, to: int): real { (to - from) as real * l.perTick }

  function Refill(l: Limits, b: Bucket, now: int): real {
    var t := b.tokens + Gain(l, b.refilledAt, now);
    if t > l.burst then l.burst else t
  }

  predicate Admits(l: Limits, b: Bucket, now: int) { Refill(l, b, now) >= 1.0 }

  function Call(l: Limits, b: Bucket, now: int): Bucket {
    Bucket(if Admits(l, b, now) then Refill(l, b, now) - 1.0 else Refill(l, b, now), now)
  }

  predicate InRange(l: Limits, b: Bucket) { 0.0 <= b.tokens <= l.burst }

  // ---------------------------------------------------------------- runs

  /** Calls at nondecreasing moments, the first no earlier than the bucket's last refill. */
  ghost predicate IsRun(b: Bucket, times: seq<int>) {
    && (times != [] ==> b.refilledAt <= times[0])
    && forall i, j :: 0 <= i <= j < |times| ==> times[i] <= times[j]
  }

  /** The bucket just before call `n`. */
  ghost function Before(l: Limits, b: Bucket, times: seq<int>, n: nat): Bucket
    requires n <= |times|
  {
    if n == 0 then b else Call(l, Before(l, b, times, n - 1), times[n - 1])
  }

  ghost predicate AdmitsNth(l: Limits, b: Bucket, times: seq<int>, n: nat)
    requires n < |times|
  {
    Admits(l, Before(l, b, times, n), times[n])
  }

  /** How many of the calls `i .. n - 1` were admitted. */
  ghost function Admitted(l: Limits, b: Bucket, times: seq<int>, i: nat, n: nat): nat
    requires i <= n <= |times|
    decreases n
  {
    if i == n then 0
    else Admitted(l, b, times, i, n - 1) + if AdmitsNth(l, b, times, n - 1) then 1 else 0
  }

  lemma GainAdds(l: Limits, a: int, b: int, c: int)
    ensures Gain(l, a, b) + Gain(l, b, c) == Gain(l, a, c)
  {
    assert (c - a) as real == (b - a) as real + (c - b) as real;
  }

  lemma GainIsPositive(l: Limits, a: int, b: int)
    requires Sane(l) && a <= b
    ensures Gain(l, a, b) >= 0.0
  {
  }

  /** 0 <= tokens <= burst throughout every run. */
  lemma {:induction false} TokensStayInRange(l: Limits, b: Bucket, times: seq<int>, n: nat)
    requires Sane(l) && InRange(l, b) && IsRun(b, times) && n <= |times|
    ensures InRange(l, Before(l, b, times, n))
    ensures Before(l, b, times, n).refilledAt == if n == 0 then b.refilledAt else times[n - 1]
  {
    if n > 0 {
      TokensStayInRange(l, b, times, n - 1);
      GainIsPositive(l, Before(l, b, times, n - 1).refilledAt, times[n - 1]);
    }
  }

  /** What any stretch `i .. n - 1` has used is missing from the bucket at call `n`. */
  lemma {:induction false} StretchIsPaidFor(l: Limits, b: Bucket, times: seq<int>, i: nat, n: nat)
    requires Sane(l) && InRange(l, b) && IsRun(b, times) && i <= n < |times|
    ensures Refill(l, Before(l, b, times, n), times[n])
            <= l.burst + Gain(l, times[i], times[n]) - Admitted(l, b, times, i, n) as real
    decreases n
  {
    if i < n {
      StretchIsPaidFor(l, b, times, i, n - 1);
      TokensStayInRange(l, b, times, n);
      GainAdds(l, times[i], times[n - 1], times[n]);
    }
  }

  /** In any stretch of any run at most `burst + rate * (t2 - t1)` calls are admitted. */
  lemma StretchIsBounded(l: Limits, b: Bucket, times: seq<int>, i: nat, j: nat)
    requires Sane(l) && InRange(l, b) && IsRun(b, times) && i <= j < |times|
    ensures Admitted(l, b, times, i, j + 1) as real <= l.burst + Gain(l, times[i], times[j])
  {
    var gain, admitted, before := Gain(l, times[i], times[j]), Admitted(l, b, times, i, j), Before(l, b, times, j);
    assert Refill(l, before, times[j]) <= l.burst + gain - admitted as real by { StretchIsPaidFor(l, b, times, i, j); }
    assert InRange(l, Call(l, before, times[j])) by { TokensStayInRange(l, b, times, j + 1); }
    LastCallIsPaidFor(l, before, times[j], gain, admitted);
    assert Admitted(l, b, times, i, j + 1) == admitted + if Admits(l, before, times[j]) then 1 else 0;
  }

  lemma LastCallIsPaidFor(l: Limits, b: Bucket, now: int, gain: real, admitted: nat)
    requires Refill(l, b, now) <= l.burst + gain - admitted as real && InRange(l, Call(l, b, now))
    ensures (admitted + if Admits(l, b, now) then 1 else 0) as real <= l.burst + gain
  {
  }

  ghost predicate Uses(l: Limits, b: Bucket, times: seq<int>, i: nat, n: nat)
    requires i <= n < |times|
  {
    Refill(l, Before(l, b, times, n), times[n])
    == l.burst + Gain(l, times[i], times[n]) - Admitted(l, b, times, i, n) as real
  }

  /** From a full bucket some stretch accounts for all that is missing: no token is ever lost. */
  lemma {:induction false} SomeStretchIsExact(l: Limits, b: Bucket, times: seq<int>, n: nat) returns (i: nat)
    requires Sane(l) && b.tokens == l.burst && IsRun(b, times) && n < |times|
    ensures i <= n && Uses(l, b, times, i, n)
    decreases n
  {
    TokensStayInRange(l, b, times, n);
    var before := Before(l, b, times, n);
    if n == 0 || before.tokens + Gain(l, before.refilledAt, times[n]) > l.burst {
      if n == 0 { GainIsPositive(l, b.refilledAt, times[0]); }
      i := n;
    } else {
      i := SomeStretchIsExact(l, b, times, n - 1);
      GainAdds(l, times[i], times[n - 1], times[n]);
    }
  }

  /** One more call at the end of the stretch `i .. n - 1` stays within burst plus rate times its length. */
  ghost predicate Affordable(l: Limits, b: Bucket, times: seq<int>, i: nat, n: nat)
    requires i <= n < |times|
  {
    (Admitted(l, b, times, i, n) + 1) as real <= l.burst + Gain(l, times[i], times[n])
  }

  /** A bucket that starts full admits a call exactly when no stretch ending with it would go over. */
  lemma AdmittedIffAffordable(l: Limits, b: Bucket, times: seq<int>, n: nat)
    requires Sane(l) && b.tokens == l.burst && IsRun(b, times) && n < |times|
    ensures AdmitsNth(l, b, times, n) <==> forall i: nat :: i <= n ==> Affordable(l, b, times, i, n)
  {
    forall i: nat | i <= n ensures AdmitsNth(l, b, times, n) ==> Affordable(l, b, times, i, n) {
      StretchIsPaidFor(l, b, times, i, n);
    }
    var i := SomeStretchIsExact(l, b, times, n);
    assert Affordable(l, b, times, i, n) ==> AdmitsNth(l, b, times, n);
  }

  // ---------------------------------------------------------------- waiting

  /** The exact time, in ticks, until a rejecting bucket holds one token. */
  function ExactWait(l: Limits, b: Bucket, now: int): real
    requires l.perTick > 0.0
  {
    (1.0 - Refill(l, b, now)) / l.perTick
  }

  /** The wait as reported: whole ticks, the fraction dropped. */
  function Wait(l: Limits, b: Bucket, now: int): int
    requires l.perTick > 0.0
  {
    ExactWait(l, b, now).Floor
  }

  predicate Whole(x: real) { x.Floor as real == x }

  lemma EnoughTime(r: real, missing: real, passed: real)
    requires r > 0.0 && passed >= missing / r
    ensures passed * r >= missing
  {
    var exact := missing / r;
    assert exact * r == missing;
    assert (passed - exact) * r >= 0.0;
  }

  lemma TooLittleTime(r: real, missing: real, passed: real)
    requires r > 0.0 && passed < missing / r
    ensures passed * r < missing
  {
    var exact := missing / r;
    assert exact * r == missing;
    assert (exact - passed) * r > 0.0;
  }

  /** What a bucket that rejected holds later, if no call comes between. */
  lemma RefillAfterRejection(l: Limits, b: Bucket, now: int, later: int)
    requires !Admits(l, b, now)
    ensures var t := Refill(l, b, now) + Gain(l, now, later);
            Refill(l, Call(l, b, now), later) == if t > l.burst then l.burst else t
  {
  }

  /** After a rejection the next call, if none comes between, is admitted exactly once the exact wait has passed. */
  lemma RetryIff(l: Limits, b: Bucket, now: int, later: int)
    requires l.perTick > 0.0 && !Admits(l, b, now)
    ensures Admits(l, Call(l, b, now), later) <==> l.burst >= 1.0 && (later - now) as real >= ExactWait(l, b, now)
  {
    var missing, passed := 1.0 - Refill(l, b, now), (later - now) as real;
    assert ExactWait(l, b, now) == missing / l.perTick && Gain(l, now, later) == passed * l.perTick;
    RefillAfterRejection(l, b, now, later);
    if passed >= missing / l.perTick {
      EnoughTime(l.perTick, missing, passed);
    } else {
      TooLittleTime(l.perTick, missing, passed);
    }
  }

  /** A retry at the reported wait is admitted exactly when that wait dropped no fraction; one tick later always. */
  lemma RetryAtWaitIff(l: Limits, b: Bucket, now: int)
    requires l.perTick > 0.0 && l.burst >= 1.0 && !Admits(l, b, now)
    ensures Wait(l, b, now) >= 0
    ensures Admits(l, Call(l, b, now), now + Wait(l, b, now)) <==> Whole(ExactWait(l, b, now))
    ensures Admits(l, Call(l, b, now), now + Wait(l, b, now) + 1)
  {
    RetryIff(l, b, now, now + Wait(l, b, now));
    RetryIff(l, b, now, now + Wait(l, b, now) + 1);
    assert ExactWait(l, b, now) > 0.0;
  }

  // ---------------------------------------------------------------- rates that divide a token into whole ticks

  function Ticks(l: Limits, k: int): real { k as real * l.perTick }

  /** `x` tokens are what some whole number of ticks brings. */
  ghost predicate OnGrid(l: Limits, x: real) { exists k: int :: x == Ticks(l, k) }

  /** One token takes `n` whole ticks and the burst is a whole number of tokens. */
  ghost predicate WholeRate(l: Limits, n: nat, burst: nat) {
    l.perTick > 0.0 && Ticks(l, n) == 1.0 && l.burst == burst as real
  }

  lemma TicksAdd(l: Limits, j: int, k: int)
    ensures Ticks(l, j) + Ticks(l, k) == Ticks(l, j + k)
  {
    assert (j + k) as real == j as real + k as real;
  }

  lemma {:induction false} WholeTokensAreOnGrid(l: Limits, n: nat, burst: nat)
    requires Ticks(l, n) == 1.0
    ensures Ticks(l, n * burst) == burst as real
  {
    if burst > 0 {
      WholeTokensAreOnGrid(l, n, burst - 1);
      TicksAdd(l, n * (burst - 1), n);
      assert n * burst == n * (burst - 1) + n;
    }
  }

  lemma RefillIsOnGrid(l: Limits, b: Bucket, now: int, n: nat, burst: nat) returns (k: int)
    requires WholeRate(l, n, burst) && OnGrid(l, b.tokens)
    ensures Refill(l, b, now) == Ticks(l, k)
  {
    if b.tokens + Gain(l, b.refilledAt, now) > l.burst {
      k := n * burst;
      WholeTokensAreOnGrid(l, n, burst);
    } else {
      var j: int :| b.tokens == Ticks(l, j);
      k := j + (now - b.refilledAt);
      TicksAdd(l, j, now - b.refilledAt);
    }
  }

  lemma OneTokenLess(l: Limits, k: int, n: nat)
    requires Ticks(l, n) == 1.0
    ensures Ticks(l, k) - 1.0 == Ticks(l, k - n) && 1.0 - Ticks(l, k) == Ticks(l, n - k)
  {
    TicksAdd(l, k - n, n);
    TicksAdd(l, n - k, k);
  }

  lemma StaysOnGrid(l: Limits, x: real, n: nat, k: int)
    requires Ticks(l, n) == 1.0 && x == Ticks(l, k)
    ensures OnGrid(l, x) && OnGrid(l, x - 1.0)
  {
    OneTokenLess(l, k, n);
  }

  lemma MissingIsWhole(l: Limits, x: real, n: nat, k: int)
    requires l.perTick > 0.0 && Ticks(l, n) == 1.0 && x == Ticks(l, k)
    ensures Whole((1.0 - x) / l.perTick)
  {
    var missing := 1.0 - x;
    assert missing == Ticks(l, n - k) by { OneTokenLess(l, k, n); }
    WholeTicks(l, n - k, missing);
  }

  /** One call keeps the grid, and the wait it would report has no fraction. */
  lemma CallKeepsGrid(l: Limits, b: Bucket, now: int, n: nat, burst: nat)
    requires WholeRate(l, n, burst) && OnGrid(l, b.tokens)
    ensures OnGrid(l, Call(l, b, now).tokens) && Whole(ExactWait(l, b, now))
  {
    var k := RefillIsOnGrid(l, b, now, n, burst);
    StaysOnGrid(l, Refill(l, b, now), n, k);
    MissingIsWhole(l, Refill(l, b, now), n, k);
  }

  lemma WholeTicks(l: Limits, k: int, x: real)
    requires l.perTick > 0.0 && x == Ticks(l, k)
    ensures Whole(x / l.perTick)
  {
    Quotient(x, l.perTick, k as real);
    assert (k as real).Floor == k;
  }

  lemma Quotient(x: real, r: real, q: real)
    requires r > 0.0 && x == q * r
    ensures x / r == q
  {
  }

  /** Over every run from a full bucket with such a rate, every wait reported is exact. */
  lemma {:induction false} RunsStayOnGrid(l: Limits, b: Bucket, times: seq<int>, i: nat, n: nat, burst: nat)
    requires WholeRate(l, n, burst) && b.tokens == l.burst && i < |times|
    ensures OnGrid(l, Before(l, b, times, i).tokens) && Whole(ExactWait(l, Before(l, b, times, i), times[i]))
  {
    if i == 0 {
      WholeTokensAreOnGrid(l, n, burst);
    } else {
      RunsStayOnGrid(l, b, times, i - 1, n, burst);
      CallKeepsGrid(l, Before(l, b, times, i - 1), times[i - 1], n, burst);
    }
    CallKeepsGrid(l, Before(l, b, times, i), times[i], n, burst);
  }
}
