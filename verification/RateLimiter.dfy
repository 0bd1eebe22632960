/**
 * The sliding-window rate limiter: a queue of accepted times per key, and the
 * counting rule that it implements. Time is a number of ticks since the epoch
 * of the clock, below which the clock cannot represent an instant.
 */
module RateLimiter {
  datatype Attempt = Attempt(key: string, time: nat, accepted: bool)

  /** One window before `now`, or `now` itself when the clock cannot go back that far. */
  function Cutoff(window: nat, now: nat): nat {
    if now >= window then now - window else now
  }

  /** What is left of a queue when old times have been popped off its front. */
  function Evict(bucket: seq<nat>, cutoff: nat): seq<nat> {
    if bucket != [] && bucket[0] <= cutoff then Evict(bucket[1..], cutoff) else bucket
  }

  /** The queue of a key after a series of attempts. */
  function Bucket(window: nat, h: seq<Attempt>, key: string): seq<nat> {
    if h == [] then []
    else
      var a, before := h[|h| - 1], Bucket(window, h[..|h| - 1], key);
      if a.key != key then before
      else if a.accepted then Evict(before, Cutoff(window, a.time)) + [a.time]
      else Evict(before, Cutoff(window, a.time))
  }

  predicate Allows(window: nat, maxAttempts: nat, h: seq<Attempt>, key: string, now: nat) {
    |Evict(Bucket(window, h, key), Cutoff(window, now))| < maxAttempts
  }

  /** Times do not go backwards. */
  predicate Ordered(h: seq<Attempt>) {
    forall i, j | 0 <= i < j < |h| :: h[i].time <= h[j].time
  }

  predicate NotAfter(h: seq<Attempt>, now: nat) {
    forall i | 0 <= i < |h| :: h[i].time <= now
  }

  predicate AllUpTo(times: seq<nat>, now: nat) {
    forall i | 0 <= i < |times| :: times[i] <= now
  }

  /** Every decision in the series is the one the limiter makes at that point. */
  predicate Decided(window: nat, maxAttempts: nat, h: seq<Attempt>) {
    forall i | 0 <= i < |h| :: h[i].accepted <==> Allows(window, maxAttempts, h[..i], h[i].key, h[i].time)
  }

  lemma {:induction false} EvictPops(bucket: seq<nat>, cutoff: nat)
    ensures bucket != [] && bucket[0] <= cutoff ==> Evict(bucket, cutoff) == Evict(bucket[1..], cutoff)
    ensures bucket == [] || bucket[0] > cutoff ==> Evict(bucket, cutoff) == bucket
  {
  }

  lemma DecidedAfter(window: nat, maxAttempts: nat, h: seq<Attempt>, a: Attempt)
    requires Decided(window, maxAttempts, h)
    requires a.accepted <==> Allows(window, maxAttempts, h, a.key, a.time)
    ensures Decided(window, maxAttempts, h + [a])
  {
    hide Allows;
    forall i | 0 <= i < |h| + 1
      ensures (h + [a])[i].accepted <==>
              Allows(window, maxAttempts, (h + [a])[..i], (h + [a])[i].key, (h + [a])[i].time)
    {
      assert (h + [a])[..i] == h[..i];
      assert h[..|h|] == h;
    }
  }

  lemma {:induction false} BucketAfter(window: nat, h: seq<Attempt>, a: Attempt)
    ensures forall key | key != a.key :: Bucket(window, h + [a], key) == Bucket(window, h, key)
    ensures Bucket(window, h + [a], a.key)
         == Evict(Bucket(window, h, a.key), Cutoff(window, a.time)) + (if a.accepted then [a.time] else [])
  {
    assert (h + [a])[..|h|] == h;
  }

  class SlidingWindowRateLimiter {
    const window: nat
    const maxAttempts: nat
    var inner: map<string, seq<nat>>
    ghost var history: seq<Attempt>

    /** Every queue is what its key's attempts have made of it. */
    ghost predicate Valid()
      reads this
    {
      Decided(window, maxAttempts, history) &&
      (forall key | key in inner :: inner[key] == Bucket(window, history, key)) &&
      (forall key | key !in inner :: Bucket(window, history, key) == [])
    }

    constructor (window: nat, maxAttempts: nat)
      ensures Valid() && this.window == window && this.maxAttempts == maxAttempts && history == []
    {
      this.window := window;
      this.maxAttempts := maxAttempts;
      inner := map[];
      history := [];
    }

    method CheckAndRecord(key: string, now: nat) returns (allowed: bool)
      requires Valid()
      modifies this
      ensures Valid()
      ensures allowed <==> Allows(window, maxAttempts, old(history), key, now)
      ensures history == old(history) + [Attempt(key, now, allowed)]
    {
      hide Evict, Decided, Bucket;
      var cutoff := Cutoff(window, now);
      var bucket := if key in inner then inner[key] else [];
      ghost var start := bucket;
      while bucket != [] && bucket[0] <= cutoff
        invariant Evict(start, cutoff) == Evict(bucket, cutoff)
        modifies {}
        decreases |bucket|
      {
        EvictPops(bucket, cutoff);
        bucket := bucket[1..];
      }
      EvictPops(bucket, cutoff);
      ghost var before := history;
      if |bucket| >= maxAttempts {
        allowed := false;
      } else {
        bucket := bucket + [now];
        allowed := true;
      }
      inner := inner[key := bucket];
      history := history + [Attempt(key, now, allowed)];
      DecidedAfter(window, maxAttempts, before, Attempt(key, now, allowed));
      BucketAfter(window, before, Attempt(key, now, allowed));
    }
  }
}
