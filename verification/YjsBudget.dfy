/** The per-connection budget of document updates over one WebSocket, in milliseconds. */
module YjsBudget {
  import opened Common
  import opened TokenBucket

  const YJS_BUDGET_MAX := 200
  const YJS_REFILL_PER_SEC := 20

  function YjsLimits(): Limits { Limits(YJS_BUDGET_MAX as real, YJS_REFILL_PER_SEC as real / 1000.0) }

  /** The budget is created full by the first update. */
  function Started(budget: Option<Bucket>, now: int): Bucket {
    if budget.Some? then budget.value else Bucket(YJS_BUDGET_MAX as real, now)
  }

  /** However a connection times its updates, any stretch of `ms` milliseconds takes at most 200 + ms / 50. */
  lemma FramesAreBounded(times: seq<int>, i: nat, j: nat)
    requires i <= j < |times| && IsRun(Started(None, times[0]), times)
    ensures 50 * Admitted(YjsLimits(), Started(None, times[0]), times, i, j + 1) <= 10_000 + (times[j] - times[i])
  {
    var l, b := YjsLimits(), Started(None, times[0]);
    var admitted := Admitted(l, b, times, i, j + 1);
    assert admitted as real <= l.burst + Gain(l, times[i], times[j]) by { StretchIsBounded(l, b, times, i, j); }
    InWholeNumbers(l, admitted, times[i], times[j]);
  }

  lemma InWholeNumbers(l: Limits, admitted: nat, from: int, to: int)
    requires l == YjsLimits() && admitted as real <= l.burst + Gain(l, from, to)
    ensures 50 * admitted <= 10_000 + (to - from)
  {
    var ms := to - from;
    assert (50 * admitted) as real == 50.0 * admitted as real;
    assert l.perTick == 0.02;
    assert (10_000 + ms) as real == 10_000.0 + ms as real;
  }

  /** An update is dropped exactly when taking it would let some stretch ending now go over that bound. */
  lemma FrameIsTakenIff(times: seq<int>, n: nat)
    requires n < |times| && IsRun(Started(None, times[0]), times)
    ensures AdmitsNth(YjsLimits(), Started(None, times[0]), times, n)
            <==> forall i: nat :: i <= n ==> Affordable(YjsLimits(), Started(None, times[0]), times, i, n)
  {
    AdmittedIffAffordable(YjsLimits(), Started(None, times[0]), times, n);
  }

  class Connection {
    var yjsBudget: Option<Bucket>

    constructor ()
      ensures yjsBudget == None
    {
      yjsBudget := None;
    }

    method TakeYjsUpdateToken(now: int) returns (ok: bool)
      modifies this
      ensures yjsBudget == Some(Call(YjsLimits(), Started(old(yjsBudget), now), now))
      ensures ok == Admits(YjsLimits(), Started(old(yjsBudget), now), now)
    {
      var budget := if yjsBudget.Some? then yjsBudget.value else Bucket(YJS_BUDGET_MAX as real, now);
      var elapsedSec := (now - budget.refilledAt) as real / 1000.0;
      assert elapsedSec * YJS_REFILL_PER_SEC as real == Gain(YjsLimits(), budget.refilledAt, now);
      var tokens := budget.tokens + elapsedSec * YJS_REFILL_PER_SEC as real;
      if tokens > YJS_BUDGET_MAX as real { tokens := YJS_BUDGET_MAX as real; }
      ok := !(tokens < 1.0);
      yjsBudget := Some(Bucket(if ok then tokens - 1.0 else tokens, now));
    }
  }
}
