/** The reconnect backoff of an agent, computed in saturating 64-bit arithmetic. */
module Backoff {
  import opened Integers

  type u8 = n: nat | n <= U8_MAX
  type u32 = n: nat | n <= U32_MAX
  type u64 = n: nat | n <= U64_MAX

  datatype AgentTransportReconnectPolicy =
    AgentTransportReconnectPolicy(initialBackoffMs: u64, maxBackoffMs: u64, multiplier: u8)

  function SaturatingMul(a: u64, b: u64): u64 {
    Min(a * b, U64_MAX)
  }

  lemma GrowthStep(before: nat, factor: nat)
    requires factor >= 1
    ensures before * factor >= before
  {
    assert before * factor == before + before * (factor - 1);
  }

  /** Unbounded exponential growth: max(1, initial) * max(1, multiplier) ^ attempt. */
  function Growth(policy: AgentTransportReconnectPolicy, attempt: nat): (delay: nat)
    ensures delay >= 1
  {
    if attempt == 0 then Max(policy.initialBackoffMs, 1)
    else
      var before := Growth(policy, attempt - 1);
      var factor := Max(policy.multiplier, 1);
      GrowthStep(before, factor);
      before * factor
  }

  lemma {:induction false} GrowthMonotone(policy: AgentTransportReconnectPolicy, m: nat, n: nat)
    requires m <= n
    ensures Growth(policy, m) <= Growth(policy, n)
    decreases n
  {
    if m < n {
      GrowthMonotone(policy, m, n - 1);
      GrowthStep(Growth(policy, n - 1), Max(policy.multiplier, 1));
    }
  }

  /** Neither the saturation nor the early return shows: the delay is the capped unbounded growth. */
  method DelayForAttempt(policy: AgentTransportReconnectPolicy, attempt: u32) returns (result: u64)
    ensures result <= policy.maxBackoffMs && result <= Growth(policy, attempt)
    ensures result == policy.maxBackoffMs || result == Growth(policy, attempt)
    ensures result == Min(policy.maxBackoffMs, Growth(policy, attempt))
  {
    var delay: u64 := Max(policy.initialBackoffMs, 1);
    for n := 0 to attempt
      invariant delay == Growth(policy, n)
    {
      delay := SaturatingMul(delay, Max(policy.multiplier, 1));
      if delay >= policy.maxBackoffMs {
        GrowthMonotone(policy, n + 1, attempt);
        return policy.maxBackoffMs;
      }
    }
    return Min(delay, policy.maxBackoffMs);
  }

  /**
   * Later attempts never wait less, none waits longer than the maximum, and none waits zero unless the
   * maximum is zero.
   */
  lemma {:induction false} DelaysBoundedAndMonotone(policy: AgentTransportReconnectPolicy, m: nat, n: nat)
    requires m <= n
    ensures var at := k => Min(policy.maxBackoffMs, Growth(policy, k));
            at(m) <= at(n) <= policy.maxBackoffMs && (at(m) == 0 <==> policy.maxBackoffMs == 0)
  {
    GrowthMonotone(policy, m, n);
  }

  lemma GrowthNext(policy: AgentTransportReconnectPolicy, n: nat)
    ensures Growth(policy, n + 1) == Growth(policy, n) * Max(policy.multiplier, 1)
  {
  }

  lemma TwiceOrMore(before: nat, factor: nat)
    requires factor >= 2
    ensures before * factor >= 2 * before
  {
    assert before * factor == 2 * before + before * (factor - 2);
  }

  lemma {:induction false} GrowthAtLeastDoubles(policy: AgentTransportReconnectPolicy, n: nat)
    requires policy.multiplier >= 2
    ensures Growth(policy, n) >= Pow2(n)
  {
    if n > 0 {
      GrowthAtLeastDoubles(policy, n - 1);
      GrowthNext(policy, n - 1);
      hide Growth;
      TwiceOrMore(Growth(policy, n - 1), policy.multiplier);
    }
  }

  /**
   * With a multiplier of at least two, the maximum is reached after at most as many attempts as the
   * maximum has bits.
   */
  lemma MaximumIsReached(policy: AgentTransportReconnectPolicy, n: nat)
    requires policy.multiplier >= 2 && policy.maxBackoffMs <= Pow2(n)
    ensures Min(policy.maxBackoffMs, Growth(policy, n)) == policy.maxBackoffMs
  {
    GrowthAtLeastDoubles(policy, n);
  }

  function Power(base: nat, exponent: nat): nat {
    if exponent == 0 then 1 else base * Power(base, exponent - 1)
  }

  lemma Commute(i: nat, p: nat, m: nat)
    ensures i * p * m == i * (m * p)
  {
    assert p * m == m * p;
  }

  function OneIfZero(n: nat): nat {
    if n == 0 then 1 else n
  }

  /** The growth in closed form; a delay or a multiplier of zero counts as one. */
  lemma {:induction false} GrowthIsPower(policy: AgentTransportReconnectPolicy, n: nat)
    ensures Growth(policy, n) == OneIfZero(policy.initialBackoffMs) * Power(OneIfZero(policy.multiplier), n)
  {
    var i, m := OneIfZero(policy.initialBackoffMs), OneIfZero(policy.multiplier);
    if n == 0 {
      assert i * Power(m, 0) == i;
    } else {
      GrowthIsPower(policy, n - 1);
      GrowthNext(policy, n - 1);
      hide Growth;
      Commute(i, Power(m, n - 1), m);
    }
  }
}
