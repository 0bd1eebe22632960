/**
 * What the rate limiter decides, in terms of counting: when its queue agrees
 * with the attempts accepted in the window, and exactly when it does not.
 */
module RateLimiterRuns {
  import opened RateLimiter

  // ------------------------------------------------------------- the counting rule

  /** All times at which an attempt of the key was accepted. */
  function Accepted(h: seq<Attempt>, key: string): seq<nat> {
    if h == [] then []
    else
      var a, before := h[|h| - 1], Accepted(h[..|h| - 1], key);
      if a.key == key && a.accepted then before + [a.time] else before
  }

  /** How many of the times lie in the half-open interval (lo, hi]. */
  function CountIn(times: seq<nat>, lo: int, hi: int): nat {
    if times == [] then 0
    else
      var t := times[|times| - 1];
      CountIn(times[..|times| - 1], lo, hi) + (if lo < t <= hi then 1 else 0)
  }

  /** The attempts of a key all came when the clock could go back one window. */
  predicate Settled(window: nat, h: seq<Attempt>, key: string) {
    forall i | 0 <= i < |h| && h[i].key == key :: h[i].time >= window
  }

  /** No earlier attempt of the key has dropped anything that is still inside the window at `now`. */
  predicate Undisturbed(window: nat, h: seq<Attempt>, key: string, now: nat) {
    now >= window &&
    forall i | 0 <= i < |h| && h[i].key == key && h[i].time < window :: h[i].time + window <= now
  }

  lemma {:induction false} EvictTwice(b: seq<nat>, c: nat, d: nat)
    requires c <= d
    ensures Evict(Evict(b, c), d) == Evict(b, d)
  {
    if b != [] && b[0] <= c {
      EvictTwice(b[1..], c, d);
    }
  }

  lemma {:induction false} EvictAppend(b: seq<nat>, t: nat, c: nat)
    requires AllUpTo(b, t)
    ensures Evict(b + [t], c) == Evict(b, c) + (if t > c then [t] else [])
  {
    if b == [] {
      assert b + [t] == [t];
      assert [t][1..] == [];
    } else if b[0] <= c {
      EvictAppend(b[1..], t, c);
      assert (b + [t])[1..] == b[1..] + [t];
    }
  }

  lemma {:induction false} EvictKeeps(b: seq<nat>, c: nat, now: nat)
    requires AllUpTo(b, now)
    ensures AllUpTo(Evict(b, c), now)
    ensures c >= now ==> Evict(b, c) == []
  {
    if b != [] && b[0] <= c {
      EvictKeeps(b[1..], c, now);
    }
  }

  lemma {:induction false} BucketNotAfter(window: nat, h: seq<Attempt>, key: string, now: nat)
    requires NotAfter(h, now)
    ensures AllUpTo(Bucket(window, h, key), now)
  {
    hide Evict;
    if h != [] {
      var a := h[|h| - 1];
      BucketNotAfter(window, h[..|h| - 1], key, now);
      EvictKeeps(Bucket(window, h[..|h| - 1], key), Cutoff(window, a.time), now);
    }
  }

  lemma {:induction false} CountAppend(times: seq<nat>, t: nat, lo: int, hi: int)
    ensures CountIn(times + [t], lo, hi) == CountIn(times, lo, hi) + (if lo < t <= hi then 1 else 0)
  {
    assert (times + [t])[..|times|] == times;
  }

  /** Before the clock has run for one window every attempt clears the queue, and is allowed unless nothing ever is. */
  lemma EarlyAttemptsAreAllowed(window: nat, maxAttempts: nat, h: seq<Attempt>, key: string, now: nat)
    requires NotAfter(h, now) && now < window
    ensures Allows(window, maxAttempts, h, key, now) <==> maxAttempts > 0
  {
    BucketNotAfter(window, h, key, now);
    EvictKeeps(Bucket(window, h, key), now, now);
  }

  lemma {:induction false} AcceptedNotAfter(h: seq<Attempt>, key: string, now: nat)
    requires NotAfter(h, now)
    ensures AllUpTo(Accepted(h, key), now)
  {
    if h != [] {
      AcceptedNotAfter(h[..|h| - 1], key, now);
    }
  }

  lemma {:induction false} CountAll(times: seq<nat>, lo: int, hi: int)
    requires forall i | 0 <= i < |times| :: lo < times[i] <= hi
    ensures CountIn(times, lo, hi) == |times|
  {
    if times != [] {
      CountAll(times[..|times| - 1], lo, hi);
    }
  }

  // -------------------------------------------------- exactly when the rule is kept

  /** An attempt of the key at a time when the clock could not go back one window. */
  predicate IsEarly(window: nat, a: Attempt, key: string) {
    a.key == key && a.time < window
  }

  /** The last early attempt of the key, or the start of the series if there is none. */
  function LastEarly(window: nat, h: seq<Attempt>, key: string): (r: nat)
    ensures r <= |h|
    ensures (r < |h| && IsEarly(window, h[r], key)) ||
            (r == 0 && forall i | 0 <= i < |h| :: !IsEarly(window, h[i], key))
    ensures forall i | r < i < |h| :: !IsEarly(window, h[i], key)
  {
    if h == [] then 0
    else if IsEarly(window, h[|h| - 1], key) then |h| - 1
    else LastEarly(window, h[..|h| - 1], key)
  }

  /** The accepted attempts of the key in (now - window, now]. */
  function InWindow(window: nat, h: seq<Attempt>, key: string, now: nat): nat {
    CountIn(Accepted(h, key), now - window, now)
  }

  /**
   * Those of them that no early attempt has dropped: the ones from the last early attempt on; none if
   * this one is early.
   */
  function Remembered(window: nat, h: seq<Attempt>, key: string, now: nat): nat {
    if now < window then 0
    else CountIn(Accepted(h[LastEarly(window, h, key)..], key), now - window, now)
  }

  /** And those that have been dropped although they are in the window. */
  function Forgotten(window: nat, h: seq<Attempt>, key: string, now: nat): nat {
    if now < window then |Accepted(h, key)|
    else CountIn(Accepted(h[..LastEarly(window, h, key)], key), now - window, now)
  }

  lemma SurvivorsAfterOneMore(window: nat, before: seq<Attempt>, a: Attempt, key: string, r: nat, now: nat)
    requires NotAfter(before, a.time) && window <= a.time <= now && a.key == key && r <= |before|
    requires |Evict(Bucket(window, before, key), now - window)|
             == CountIn(Accepted(before[r..], key), now - window, now)
    ensures |Evict(Bucket(window, before + [a], key), now - window)|
         == CountIn(Accepted(before[r..] + [a], key), now - window, now)
  {
    var b, c := Bucket(window, before, key), now - window;
    BucketNotAfter(window, before, key, a.time);
    EvictKeeps(b, Cutoff(window, a.time), a.time);
    EvictTwice(b, Cutoff(window, a.time), c);
    BucketAfter(window, before, a);
    assert (before[r..] + [a])[..|before[r..]|] == before[r..];
    hide Evict, Bucket;
    if a.accepted {
      EvictAppend(Evict(b, Cutoff(window, a.time)), a.time, c);
      CountAppend(Accepted(before[r..], key), a.time, c, now);
    }
  }

  lemma {:induction false} OnlyAttempt(a: Attempt, key: string)
    ensures Accepted([a], key) == if a.key == key && a.accepted then [a.time] else []
  {
    assert [a][..0] == [];
  }

  lemma NothingSurvives(window: nat, key: string, now: nat)
    requires window <= now
    ensures Bucket(window, [], key) == [] && Evict([], now - window) == []
    ensures Accepted([], key) == [] && CountIn([], now - window, now) == 0
  {
  }

  /** An early attempt leaves nothing but itself in the queue. */
  lemma SurvivorsOfEarly(window: nat, before: seq<Attempt>, a: Attempt, key: string, now: nat)
    requires NotAfter(before, a.time) && IsEarly(window, a, key) && a.time <= now && window <= now
    ensures |Evict(Bucket(window, before + [a], key), now - window)| == CountIn(Accepted([a], key), now - window, now)
  {
    hide Evict, CountIn, Bucket, Accepted;
    BucketAfter(window, before, a);
    BucketNotAfter(window, before, key, a.time);
    EvictKeeps(Bucket(window, before, key), a.time, a.time);
    OnlyAttempt(a, key);
    NothingSurvives(window, key, now);
    EvictAppend([], a.time, now - window);
    CountAppend([], a.time, now - window, now);
    assert [] + [a.time] == [a.time];
  }

  lemma {:induction false} OtherKeysDoNotCount(window: nat, before: seq<Attempt>, a: Attempt, key: string, r: nat)
    requires a.key != key && r <= |before|
    ensures Bucket(window, before + [a], key) == Bucket(window, before, key)
    ensures Accepted(before[r..] + [a], key) == Accepted(before[r..], key)
  {
    BucketAfter(window, before, a);
    assert (before[r..] + [a])[..|before[r..]|] == before[r..];
  }

  lemma {:induction false} SurvivorsSinceLastEarly(window: nat, h: seq<Attempt>, key: string, now: nat)
    requires Ordered(h) && NotAfter(h, now) && now >= window
    ensures |Evict(Bucket(window, h, key), now - window)| == Remembered(window, h, key, now)
    decreases |h|
  {
    hide Evict, Bucket, CountIn, Accepted;
    var r := LastEarly(window, h, key);
    if h == [] {
      NothingSurvives(window, key, now);
    } else {
      var a, before := h[|h| - 1], h[..|h| - 1];
      assert NotAfter(before, a.time) && h == before + [a];
      if IsEarly(window, a, key) {
        assert h[r..] == [a];
        SurvivorsOfEarly(window, before, a, key, now);
      } else {
        assert h[r..] == before[r..] + [a];
        SurvivorsSinceLastEarly(window, before, key, now);
        if a.key == key {
          SurvivorsAfterOneMore(window, before, a, key, r, now);
        } else {
          OtherKeysDoNotCount(window, before, a, key, r);
        }
      }
    }
  }

  /** At every time, an attempt is allowed exactly when fewer than the maximum are remembered in the window. */
  lemma AllowsExactlyWhenRemembered(window: nat, maxAttempts: nat, h: seq<Attempt>, key: string, now: nat)
    requires Ordered(h) && NotAfter(h, now)
    ensures Allows(window, maxAttempts, h, key, now) <==> Remembered(window, h, key, now) < maxAttempts
  {
    if now < window {
      EarlyAttemptsAreAllowed(window, maxAttempts, h, key, now);
    } else {
      SurvivorsSinceLastEarly(window, h, key, now);
    }
  }

  lemma AcceptedLast(h: seq<Attempt>, key: string)
    requires h != []
    ensures var a := h[|h| - 1];
            Accepted(h, key)
            == Accepted(h[..|h| - 1], key) + (if a.key == key && a.accepted then [a.time] else [])
  {
  }

  lemma WithoutLast(h: seq<Attempt>, r: nat)
    requires r < |h|
    ensures var n := |h| - 1;
            h[..n][..r] == h[..r] && h[r..][..n - r] == h[..n][r..] && h[r..][n - r] == h[n]
  {
  }

  lemma {:induction false} AcceptedSplits(h: seq<Attempt>, r: nat, key: string)
    requires r <= |h|
    ensures Accepted(h, key) == Accepted(h[..r], key) + Accepted(h[r..], key)
    decreases |h|
  {
    if r == |h| {
      assert h[..r] == h && h[r..] == [];
    } else {
      hide Accepted;
      var n := |h| - 1;
      AcceptedSplits(h[..n], r, key);
      AcceptedLast(h, key);
      AcceptedLast(h[r..], key);
      WithoutLast(h, r);
    }
  }

  lemma {:induction false} CountJoins(a: seq<nat>, b: seq<nat>, lo: int, hi: int)
    ensures CountIn(a + b, lo, hi) == CountIn(a, lo, hi) + CountIn(b, lo, hi)
  {
    if b == [] {
      assert a + b == a;
    } else {
      var n := |b| - 1;
      CountJoins(a, b[..n], lo, hi);
      assert (a + b)[..|a| + n] == a + b[..n];
    }
  }

  /** What lies in the window is remembered or forgotten. */
  lemma WindowSplits(window: nat, h: seq<Attempt>, key: string, now: nat)
    requires NotAfter(h, now)
    ensures InWindow(window, h, key, now) == Remembered(window, h, key, now) + Forgotten(window, h, key, now)
  {
    if now < window {
      AcceptedNotAfter(h, key, now);
      CountAll(Accepted(h, key), now - window, now);
    } else {
      var r := LastEarly(window, h, key);
      AcceptedSplits(h, r, key);
      CountJoins(Accepted(h[..r], key), Accepted(h[r..], key), now - window, now);
    }
  }

  /** Too few attempts are remembered to notice that the window is full. */
  predicate Overlooks(window: nat, maxAttempts: nat, h: seq<Attempt>, key: string, now: nat) {
    Remembered(window, h, key, now) < maxAttempts <= Remembered(window, h, key, now) + Forgotten(window, h, key, now)
  }

  /**
   * At every time, the decision is the counting rule's unless forgotten
   * attempts make the difference to a full window; and it is the rule's for
   * every maximum exactly when nothing in the window has been forgotten.
   */
  lemma RuleHoldsExactlyWhen(window: nat, maxAttempts: nat, h: seq<Attempt>, key: string, now: nat)
    requires Ordered(h) && NotAfter(h, now)
    ensures (Allows(window, maxAttempts, h, key, now) <==> InWindow(window, h, key, now) < maxAttempts)
       <==> !Overlooks(window, maxAttempts, h, key, now)
    ensures (forall m: nat :: Allows(window, m, h, key, now) <==> InWindow(window, h, key, now) < m)
       <==> Forgotten(window, h, key, now) == 0
  {
    hide Allows, InWindow, Remembered, Forgotten;
    WindowSplits(window, h, key, now);
    forall m: nat ensures Allows(window, m, h, key, now) <==> Remembered(window, h, key, now) < m {
      AllowsExactlyWhenRemembered(window, m, h, key, now);
    }
    assert Allows(window, InWindow(window, h, key, now), h, key, now)
      <==> Remembered(window, h, key, now) < InWindow(window, h, key, now);
  }

  lemma {:induction false} CountNone(times: seq<nat>, lo: nat, hi: int)
    requires AllUpTo(times, lo)
    ensures CountIn(times, lo, hi) == 0
  {
    if times != [] {
      CountNone(times[..|times| - 1], lo, hi);
    }
  }

  /** Nothing is forgotten once one window has passed since every early attempt. */
  lemma UndisturbedForgetsNothing(window: nat, h: seq<Attempt>, key: string, now: nat)
    requires Ordered(h) && Undisturbed(window, h, key, now)
    ensures Forgotten(window, h, key, now) == 0
  {
    var r := LastEarly(window, h, key);
    if r == 0 {
      assert Accepted(h[..r], key) == [] && CountIn([], now - window, now) == 0;
    } else {
      assert NotAfter(h[..r], h[r].time) && h[r].time <= now - window;
      AcceptedNotAfter(h[..r], key, h[r].time);
      CountNone(Accepted(h[..r], key), now - window, now);
    }
  }

  /**
   * The queue refines counting: an attempt is allowed exactly when fewer than
   * the maximum of accepted attempts of that key lie in (now - window, now].
   */
  lemma {:induction false} AllowsExactlyBelowMaximum(window: nat, maxAttempts: nat, h: seq<Attempt>, key: string,
                                                     now: nat)
    requires Ordered(h) && NotAfter(h, now) && Undisturbed(window, h, key, now)
    ensures Allows(window, maxAttempts, h, key, now) <==> CountIn(Accepted(h, key), now - window, now) < maxAttempts
  {
    UndisturbedForgetsNothing(window, h, key, now);
    WindowSplits(window, h, key, now);
    AllowsExactlyWhenRemembered(window, maxAttempts, h, key, now);
    assert InWindow(window, h, key, now) == CountIn(Accepted(h, key), now - window, now);
    hide *;
  }

  /**
   * Before the clock has run for one window, the rule is kept exactly until the maximum is reached, or
   * if it is zero.
   */
  lemma {:induction false} EarlyRuleHoldsExactlyWhen(window: nat, maxAttempts: nat, h: seq<Attempt>, key: string,
                                                     now: nat)
    requires NotAfter(h, now) && now < window
    ensures (Allows(window, maxAttempts, h, key, now) <==> CountIn(Accepted(h, key), now - window, now) < maxAttempts)
       <==> maxAttempts == 0 || |Accepted(h, key)| < maxAttempts
  {
    EarlyAttemptsAreAllowed(window, maxAttempts, h, key, now);
    AcceptedNotAfter(h, key, now);
    CountAll(Accepted(h, key), now - window, now);
  }

  /**
   * Two attempts at times 3 and 5, before the clock has run for one window, pass a limiter that admits
   * one in ten ticks.
   */
  lemma {:induction false} EarlyWindowCanOverflow(key: string)
    ensures var h := [Attempt(key, 3, true), Attempt(key, 5, true)];
            Ordered(h) && Decided(10, 1, h) && CountIn(Accepted(h, key), -5, 5) == 2
  {
    var first, second := Attempt(key, 3, true), Attempt(key, 5, true);
    EarlyAttemptsAreAllowed(10, 1, [], key, 3);
    EarlyAttemptsAreAllowed(10, 1, [first], key, 5);
    assert [first][..0] == [] && [first, second][..1] == [first];
    DecidedAfter(10, 1, [], first);
    assert [] + [first] == [first];
    DecidedAfter(10, 1, [first], second);
    assert [first] + [second] == [first, second];
    assert Accepted([first], key) == [3];
    assert Accepted([first, second], key) == [3, 5];
    CountAll([3, 5], -5, 5);
  }

  lemma {:induction false} ThreeEarly(key: string, a: Attempt, b: Attempt, c: Attempt)
    requires a == Attempt(key, 5, true) && b == Attempt(key, 6, true) && c == Attempt(key, 7, true)
    ensures Ordered([a, b, c]) && NotAfter([a, b, c], 12)
    ensures CountIn(Accepted([a, b, c], key), 2, 12) == 3 && Remembered(10, [a, b, c], key, 12) == 1
  {
    hide CountIn;
    assert [a][..0] == [] && [a, b][..1] == [a] && [a, b, c][..2] == [a, b];
    assert Accepted([a], key) == [5];
    assert Accepted([a, b], key) == [5, 6];
    assert Accepted([a, b, c], key) == [5, 6, 7];
    CountAll([5, 6, 7], 2, 12);
    assert [a, b, c][2..] == [c] && [c][..0] == [];
    assert Accepted([c], key) == [7];
    CountAll([7], 2, 12);
  }

  /**
   * And three at times 5, 6 and 7 let a fourth pass at time 12, when the clock can go back, although
   * the limit is two.
   */
  lemma {:induction false} SettledClockCanOverflow(key: string)
    ensures var h := [Attempt(key, 5, true), Attempt(key, 6, true), Attempt(key, 7, true)];
            Ordered(h) && Decided(10, 2, h) && Allows(10, 2, h, key, 12) && CountIn(Accepted(h, key), 2, 12) == 3
  {
    var a, b, c := Attempt(key, 5, true), Attempt(key, 6, true), Attempt(key, 7, true);
    EarlyAttemptsAreAllowed(10, 2, [], key, 5);
    EarlyAttemptsAreAllowed(10, 2, [a], key, 6);
    EarlyAttemptsAreAllowed(10, 2, [a, b], key, 7);
    assert [a][..0] == [] && [a, b][..1] == [a] && [a, b, c][..2] == [a, b];
    DecidedAfter(10, 2, [], a);
    assert [] + [a] == [a];
    DecidedAfter(10, 2, [a], b);
    assert [a] + [b] == [a, b];
    DecidedAfter(10, 2, [a, b], c);
    assert [a, b] + [c] == [a, b, c];
    ThreeEarly(key, a, b, c);
    hide *;
    AllowsExactlyWhenRemembered(10, 2, [a, b, c], key, 12);
  }

  // ------------------------------------------------------------------ whole series

  /** What a series of attempts says about its last attempt and the ones before it. */
  lemma LastAttempt(window: nat, maxAttempts: nat, h: seq<Attempt>, key: string)
    requires Ordered(h) && Decided(window, maxAttempts, h) && h != []
    ensures var a, before := h[|h| - 1], h[..|h| - 1];
            Ordered(before) && NotAfter(before, a.time) && Decided(window, maxAttempts, before) &&
            (a.accepted <==> Allows(window, maxAttempts, before, a.key, a.time)) &&
            Accepted(h, key) == Accepted(before, key) + (if a.key == key && a.accepted then [a.time] else [])
  {
    hide Allows;
    assert forall i | 0 <= i < |h| - 1 :: h[..|h| - 1][..i] == h[..i];
  }

  /** The interval (lo, lo + window] holds no more of the times than the maximum. */
  predicate Fits(window: nat, maxAttempts: nat, times: seq<nat>, lo: int) {
    CountIn(times, lo, lo + window) <= maxAttempts
  }

  ghost predicate AllFit(window: nat, maxAttempts: nat, times: seq<nat>) {
    forall lo: int :: Fits(window, maxAttempts, times, lo)
  }

  /** No interval of the window's length holds more accepted attempts of the key than the maximum. */
  ghost predicate WindowsHold(window: nat, maxAttempts: nat, h: seq<Attempt>, key: string) {
    AllFit(window, maxAttempts, Accepted(h, key))
  }

  /** Step `i` is an attempt of the key that finds the window full of attempts too many of which are forgotten. */
  predicate Overruns(window: nat, maxAttempts: nat, h: seq<Attempt>, key: string, i: nat)
    requires i < |h|
  {
    h[i].key == key && Overlooks(window, maxAttempts, h[..i], key, h[i].time)
  }

  /** The limiter accepts such an attempt. */
  lemma OverlooksAccepts(window: nat, maxAttempts: nat, h: seq<Attempt>, key: string, now: nat)
    requires Ordered(h) && NotAfter(h, now) && Overlooks(window, maxAttempts, h, key, now)
    ensures Allows(window, maxAttempts, h, key, now)
  {
    hide Allows, Remembered, Forgotten;
    AllowsExactlyWhenRemembered(window, maxAttempts, h, key, now);
  }

  lemma {:induction false} CountedInWindow(window: nat, h: seq<Attempt>, key: string, now: nat)
    ensures InWindow(window, h, key, now) == CountIn(Accepted(h, key), now - window, now)
  {
  }

  lemma {:induction false} OneMoreAccepted(window: nat, maxAttempts: nat, h: seq<Attempt>, key: string, now: nat)
    requires Ordered(h) && NotAfter(h, now) && Allows(window, maxAttempts, h, key, now)
    ensures !Overlooks(window, maxAttempts, h, key, now) <==> CountIn(Accepted(h, key), now - window, now) < maxAttempts
  {
    hide *;
    RuleHoldsExactlyWhen(window, maxAttempts, h, key, now);
    CountedInWindow(window, h, key, now);
  }

  lemma {:induction false} CountNarrower(times: seq<nat>, lo: int, hi: int, lo': int, hi': nat)
    requires lo' <= lo && AllUpTo(times, hi')
    ensures CountIn(times, lo, hi) <= CountIn(times, lo', hi')
  {
    if times != [] {
      CountNarrower(times[..|times| - 1], lo, hi, lo', hi');
    }
  }

  lemma {:induction false} FitsAfterOneMore(window: nat, maxAttempts: nat, times: seq<nat>, now: nat, lo: int)
    requires AllUpTo(times, now) && Fits(window, maxAttempts, times, lo)
    requires CountIn(times, now - window, now) < maxAttempts
    ensures Fits(window, maxAttempts, times + [now], lo)
  {
    CountAppend(times, now, lo, lo + window);
    if lo < now <= lo + window {
      CountNarrower(times, lo, lo + window, now - window, now);
    }
  }

  lemma FullWindowOverflows(window: nat, maxAttempts: nat, times: seq<nat>, now: nat)
    requires window > 0 && CountIn(times, now - window, now) >= maxAttempts
    ensures !Fits(window, maxAttempts, times + [now], now - window)
  {
    CountAppend(times, now, now - window, now);
  }

  lemma {:induction false} NothingInNoTime(times: seq<nat>, lo: int)
    ensures CountIn(times, lo, lo) == 0
  {
    if times != [] {
      NothingInNoTime(times[..|times| - 1], lo);
    }
  }

  predicate NoneOverruns(window: nat, maxAttempts: nat, h: seq<Attempt>, key: string) {
    forall i: nat | i < |h| :: !Overruns(window, maxAttempts, h, key, i)
  }

  lemma EmptyWindowsHold(maxAttempts: nat, h: seq<Attempt>, key: string)
    requires Ordered(h)
    ensures WindowsHold(0, maxAttempts, h, key)
    ensures NoneOverruns(0, maxAttempts, h, key)
  {
    forall lo: int ensures Fits(0, maxAttempts, Accepted(h, key), lo) {
      NothingInNoTime(Accepted(h, key), lo);
    }
    forall i: nat | i < |h| ensures !Overruns(0, maxAttempts, h, key, i) {
      NothingInNoTime(Accepted(h[..i], key), h[i].time);
      WindowSplits(0, h[..i], key, h[i].time);
      hide Remembered, Forgotten;
      assert InWindow(0, h[..i], key, h[i].time) == 0;
    }
  }

  lemma FitWithOneLess(window: nat, maxAttempts: nat, times: seq<nat>, now: nat)
    ensures AllFit(window, maxAttempts, times + [now]) ==> AllFit(window, maxAttempts, times)
  {
    if AllFit(window, maxAttempts, times + [now]) {
      forall lo: int ensures Fits(window, maxAttempts, times, lo) {
        assert Fits(window, maxAttempts, times + [now], lo);
        CountAppend(times, now, lo, lo + window);
      }
    }
  }

  /** One more time keeps every interval within the maximum exactly if the one that ends with it is not full. */
  lemma FitAfterOneMore(window: nat, maxAttempts: nat, times: seq<nat>, now: nat)
    requires AllUpTo(times, now) && window > 0
    ensures AllFit(window, maxAttempts, times + [now]) <==>
            AllFit(window, maxAttempts, times) && CountIn(times, now - window, now) < maxAttempts
  {
    hide Fits, CountIn, AllUpTo;
    FitWithOneLess(window, maxAttempts, times, now);
    if CountIn(times, now - window, now) >= maxAttempts {
      FullWindowOverflows(window, maxAttempts, times, now);
    } else if AllFit(window, maxAttempts, times) {
      forall lo: int ensures Fits(window, maxAttempts, times + [now], lo) {
        FitsAfterOneMore(window, maxAttempts, times, now, lo);
      }
    }
  }

  /** The last attempt of a series overruns only if it is accepted. */
  lemma LastOverruns(window: nat, maxAttempts: nat, h: seq<Attempt>, key: string)
    requires Ordered(h) && Decided(window, maxAttempts, h) && h != []
    ensures var a, before := h[|h| - 1], h[..|h| - 1];
            Overruns(window, maxAttempts, h, key, |h| - 1) <==>
            a.key == key && a.accepted && Overlooks(window, maxAttempts, before, key, a.time)
  {
    hide Allows, Overlooks, Ordered, NotAfter, Decided;
    var a, before := h[|h| - 1], h[..|h| - 1];
    LastAttempt(window, maxAttempts, h, key);
    if Overlooks(window, maxAttempts, before, key, a.time) {
      OverlooksAccepts(window, maxAttempts, before, key, a.time);
    }
  }

  /** The same for the series with one more attempt in it. */
  lemma WindowsHoldStep(window: nat, maxAttempts: nat, h: seq<Attempt>, key: string)
    requires Ordered(h) && Decided(window, maxAttempts, h) && window > 0 && h != []
    ensures WindowsHold(window, maxAttempts, h, key) <==>
            WindowsHold(window, maxAttempts, h[..|h| - 1], key) && !Overruns(window, maxAttempts, h, key, |h| - 1)
  {
    hide Ordered, Decided, Overruns, Overlooks, AllFit, Accepted, CountIn, NotAfter, Allows, AllUpTo;
    var a, before := h[|h| - 1], h[..|h| - 1];
    LastAttempt(window, maxAttempts, h, key);
    LastOverruns(window, maxAttempts, h, key);
    if a.key == key && a.accepted {
      OneMoreAccepted(window, maxAttempts, before, key, a.time);
      AcceptedNotAfter(before, key, a.time);
      FitAfterOneMore(window, maxAttempts, Accepted(before, key), a.time);
    } else {
      assert Accepted(before, key) + [] == Accepted(before, key);
    }
  }

  lemma OverrunsBefore(window: nat, maxAttempts: nat, h: seq<Attempt>, key: string)
    requires h != []
    ensures NoneOverruns(window, maxAttempts, h, key) <==>
            NoneOverruns(window, maxAttempts, h[..|h| - 1], key) && !Overruns(window, maxAttempts, h, key, |h| - 1)
  {
    var before := h[..|h| - 1];
    forall i: nat | i < |before|
      ensures Overruns(window, maxAttempts, h, key, i) <==> Overruns(window, maxAttempts, before, key, i)
    {
      hide Overlooks;
      assert before[..i] == h[..i];
    }
    hide Overruns;
  }

  lemma NothingOverflows(window: nat, maxAttempts: nat, key: string)
    ensures WindowsHold(window, maxAttempts, [], key) && NoneOverruns(window, maxAttempts, [], key)
  {
    assert Accepted([], key) == [] && CountIn([], 0, 0) == 0;
  }

  /** Over every series, all windows hold no more than the maximum exactly when no attempt overruns. */
  lemma {:induction false} WindowsHoldExactlyWhen(window: nat, maxAttempts: nat, h: seq<Attempt>, key: string)
    requires Ordered(h) && Decided(window, maxAttempts, h)
    ensures WindowsHold(window, maxAttempts, h, key) <==> NoneOverruns(window, maxAttempts, h, key)
    decreases |h|
  {
    hide WindowsHold, Overruns, Ordered, Decided, NoneOverruns;
    if window == 0 {
      EmptyWindowsHold(maxAttempts, h, key);
    } else if h == [] {
      NothingOverflows(window, maxAttempts, key);
    } else {
      LastAttempt(window, maxAttempts, h, key);
      WindowsHoldExactlyWhen(window, maxAttempts, h[..|h| - 1], key);
      WindowsHoldStep(window, maxAttempts, h, key);
      OverrunsBefore(window, maxAttempts, h, key);
    }
  }

  /** In particular they do when the clock could always go back one window. */
  lemma NoWindowOverflows(window: nat, maxAttempts: nat, h: seq<Attempt>, key: string)
    requires Ordered(h) && Decided(window, maxAttempts, h) && Settled(window, h, key)
    ensures WindowsHold(window, maxAttempts, h, key)
  {
    forall i: nat | i < |h| ensures !Overruns(window, maxAttempts, h, key, i) {
      if h[i].key == key {
        assert Undisturbed(window, h[..i], key, h[i].time);
        assert Ordered(h[..i]) && NotAfter(h[..i], h[i].time);
        hide Forgotten, Remembered, Undisturbed;
        UndisturbedForgetsNothing(window, h[..i], key, h[i].time);
      }
    }
    hide *;
    WindowsHoldExactlyWhen(window, maxAttempts, h, key);
  }

  /** The attempts of one key only. */
  function Only(h: seq<Attempt>, key: string): seq<Attempt> {
    if h == [] then []
    else
      var a, before := h[|h| - 1], Only(h[..|h| - 1], key);
      if a.key == key then before + [a] else before
  }

  lemma {:induction false} SameBucket(window: nat, h: seq<Attempt>, key: string)
    ensures Bucket(window, h, key) == Bucket(window, Only(h, key), key)
  {
    hide Evict;
    if h != [] {
      var a, before := h[|h| - 1], h[..|h| - 1];
      SameBucket(window, before, key);
      BucketAfter(window, Only(before, key), a);
    }
  }

  /** Keys do not affect each other: a decision depends on the attempts of its own key alone. */
  lemma {:induction false} KeysAreIndependent(window: nat, maxAttempts: nat, h: seq<Attempt>, key: string, now: nat)
    ensures Allows(window, maxAttempts, h, key, now) <==> Allows(window, maxAttempts, Only(h, key), key, now)
  {
    SameBucket(window, h, key);
  }
}
