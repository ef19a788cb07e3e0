/** The per-caller token bucket, against the list of times each caller knocked. */
module RateLimiter {

  datatype Bucket = Bucket(tokens: real, last: int)

  datatype Rate = Rate(capacity: real, refillPerSec: real) {
    predicate Valid() {
      capacity >= 0.0 && refillPerSec >= 0.0
    }

    /** Tokens earned between two instants in milliseconds. */
    function Earned(a: int, b: int): real {
      (b - a) as real / 1000.0 * refillPerSec
    }

    /** Tokens in hand at `now`, before the call is charged. */
    function Refilled(b: Bucket, now: int): real {
      var t := b.tokens + Earned(b.last, now);
      if t < capacity then t else capacity
    }

    /** The bucket after a call, charged if a whole token was there. */
    function Charged(b: Bucket, now: int): Bucket {
      var t := Refilled(b, now);
      Bucket(if t < 1.0 then t else t - 1.0, now)
    }

    /** A caller's bucket after calls at `times`; the first call finds it full. */
    function After(times: seq<int>): Bucket
      requires |times| > 0
    {
      var now := times[|times|-1];
      if |times| == 1 then Charged(Bucket(capacity, now), now) else Charged(After(times[..|times|-1]), now)
    }

    /** Tokens the `k`-th call finds. */
    function Found(times: seq<int>, k: nat): real
      requires k < |times|
    {
      if k == 0 then Refilled(Bucket(capacity, times[0]), times[0]) else Refilled(After(times[..k]), times[k])
    }

    function Granted(times: seq<int>, k: nat): bool
      requires k < |times|
    {
      Found(times, k) >= 1.0
    }

    /** How many of the calls i, ..., j - 1 are granted. */
    function Grants(times: seq<int>, i: nat, j: nat): nat
      requires i <= j <= |times|
    {
      if i == j then 0 else Grants(times, i, j - 1) + if Granted(times, j - 1) then 1 else 0
    }
  }

  ghost predicate Nondecreasing(times: seq<int>) {
    forall i, j :: 0 <= i < j < |times| ==> times[i] <= times[j]
  }

  lemma EarnedIs(r: Rate, a: int, b: int, c: int)
    requires r.Valid()
    ensures r.Earned(a, b) + r.Earned(b, c) == r.Earned(a, c)
    ensures a <= b ==> r.Earned(a, b) >= 0.0
  {
    var x, y := (b - a) as real / 1000.0, (c - b) as real / 1000.0;
    assert (c - a) as real / 1000.0 == x + y;
    assert (x + y) * r.refillPerSec == x * r.refillPerSec + y * r.refillPerSec;
    if a <= b { ProductNonNegative(x, r.refillPerSec); }
  }

  lemma ProductNonNegative(x: real, y: real)
    requires x >= 0.0 && y >= 0.0
    ensures x * y >= 0.0
  {
  }

  /** After the `k`-th call the bucket holds what the call found, less the token it took. */
  lemma AfterIs(r: Rate, times: seq<int>, k: nat)
    requires k < |times|
    ensures r.After(times[..k + 1])
      == Bucket(if r.Granted(times, k) then r.Found(times, k) - 1.0 else r.Found(times, k), times[k])
  {
    var t := times[..k + 1];
    assert t[|t|-1] == times[k];
    if k > 0 { assert t[..|t|-1] == times[..k]; }
  }

  /** Tokens stay between zero and the capacity. */
  lemma {:induction false} TokensInRange(r: Rate, times: seq<int>, k: nat)
    requires r.Valid() && Nondecreasing(times) && k < |times|
    ensures 0.0 <= r.Found(times, k) <= r.capacity && 0.0 <= r.After(times[..k + 1]).tokens <= r.capacity
  {
    AfterIs(r, times, k);
    if k == 0 {
      EarnedIs(r, times[0], times[0], times[0]);
    } else {
      TokensInRange(r, times, k - 1);
      AfterIs(r, times, k - 1);
      EarnedIs(r, times[k - 1], times[k], times[k]);
      hide Rate.Earned;
    }
  }

  /** What calls i, ..., j - 1 took is covered by what call i found and what was earned since. */
  lemma {:induction false} GrantsAreCovered(r: Rate, times: seq<int>, i: nat, j: nat)
    requires r.Valid() && Nondecreasing(times) && i < j <= |times|
    ensures r.Grants(times, i, j) as real + r.After(times[..j]).tokens
         <= r.Found(times, i) + r.Earned(times[i], times[j - 1])
  {
    AfterIs(r, times, j - 1);
    if j == i + 1 {
      assert r.Grants(times, i, i) == 0;
      EarnedIs(r, times[i], times[i], times[i]);
    } else {
      GrantsAreCovered(r, times, i, j - 1);
      AfterIs(r, times, j - 2);
      EarnedIs(r, times[i], times[j - 2], times[j - 1]);
      hide Rate.Earned;
    }
  }

  /** In any window the grants are at most the capacity plus what the window earns. */
  lemma WindowBound(r: Rate, times: seq<int>, i: nat, j: nat, s: int, t: int)
    requires r.Valid() && Nondecreasing(times) && i <= j <= |times| && s <= t
    requires forall k :: i <= k < j ==> s <= times[k] <= t
    ensures r.Grants(times, i, j) as real <= r.capacity + (t - s) as real / 1000.0 * r.refillPerSec
  {
    assert r.Earned(s, t) == (t - s) as real / 1000.0 * r.refillPerSec;
    EarnedIs(r, s, t, t);
    if i < j {
      GrantsAreCovered(r, times, i, j);
      TokensInRange(r, times, i);
      TokensInRange(r, times, j - 1);
      EarnedIs(r, s, times[i], times[j - 1]);
      EarnedIs(r, s, times[j - 1], t);
      EarnedIs(r, times[j - 1], t, t);
      hide Rate.Earned, Rate.After, Rate.Found;
    }
  }

  /** Calls at least one refill apart are never turned away. */
  lemma {:induction false} SpacedCallsAreGranted(r: Rate, times: seq<int>, k: nat)
    requires r.Valid() && r.capacity >= 1.0 && Nondecreasing(times) && k < |times|
    requires forall m :: 0 < m <= k ==> r.Earned(times[m - 1], times[m]) >= 1.0
    ensures r.Granted(times, k)
  {
    if k == 0 {
      EarnedIs(r, times[0], times[0], times[0]);
    } else {
      TokensInRange(r, times, k - 1);
      AfterIs(r, times, k - 1);
      assert r.Earned(times[k - 1], times[k]) >= 1.0;
      hide Rate.Earned;
    }
  }

  /** So calls at least 1000 / refillPerSec milliseconds apart are all granted. */
  lemma SlowCallsAreGranted(r: Rate, times: seq<int>, k: nat)
    requires r.refillPerSec > 0.0 && r.capacity >= 1.0 && k < |times|
    requires forall m :: 0 < m < |times| ==> (times[m] - times[m - 1]) as real >= 1000.0 / r.refillPerSec
    ensures r.Granted(times, k)
  {
    QuotientPositive(r.refillPerSec);
    forall m | 0 < m < |times| ensures r.Earned(times[m - 1], times[m]) >= 1.0 && times[m - 1] <= times[m] {
      SpacingEarnsToken(r, times[m - 1], times[m]);
    }
    hide Rate.Earned, Rate.Granted;
    StepsNondecreasing(times);
    SpacedCallsAreGranted(r, times, k);
  }

  lemma QuotientPositive(x: real)
    requires x > 0.0
    ensures 1000.0 / x > 0.0
  {
    var q := 1000.0 / x;
    assert q * x == 1000.0;
    if q <= 0.0 { ProductNonNegative(-q, x); }
  }

  lemma {:induction false} StepsNondecreasing(times: seq<int>)
    requires forall m :: 0 < m < |times| ==> times[m - 1] <= times[m]
    ensures Nondecreasing(times)
  {
    if |times| > 0 {
      var front := times[..|times|-1];
      StepsNondecreasing(front);
      forall i, j | 0 <= i < j < |times| ensures times[i] <= times[j] {
        if j == |times| - 1 && i < j - 1 { assert front[i] <= front[j - 1]; }
      }
    }
  }

  /** A gap of 1000 / refillPerSec milliseconds earns a whole token. */
  lemma SpacingEarnsToken(r: Rate, a: int, b: int)
    requires r.refillPerSec > 0.0 && (b - a) as real >= 1000.0 / r.refillPerSec
    ensures r.Earned(a, b) >= 1.0
  {
    var gap, q := (b - a) as real, 1000.0 / r.refillPerSec;
    assert q * r.refillPerSec == 1000.0;
    ProductNonNegative(gap - q, r.refillPerSec);
    assert (gap - q) * r.refillPerSec == gap * r.refillPerSec - q * r.refillPerSec;
    assert gap / 1000.0 * r.refillPerSec == gap * r.refillPerSec / 1000.0;
  }

  lemma RefilledIs(r: Rate, b: Bucket, now: int)
    ensures var t := b.tokens + (now - b.last) as real / 1000.0 * r.refillPerSec;
      r.Refilled(b, now) == if t > r.capacity then r.capacity else t
  {
  }

  lemma FoundIs(r: Rate, before: seq<int>, b: Bucket, now: int)
    requires b == if before == [] then Bucket(r.capacity, now) else r.After(before)
    ensures r.Found(before + [now], |before|) == r.Refilled(b, now)
  {
    hide Rate.Refilled, Rate.After;
    var times := before + [now];
    assert times[..|before|] == before;
  }

  /** One call against the bucket it finds, in the arithmetic of the limiter. */
  lemma TakeIs(r: Rate, before: seq<int>, b: Bucket, now: int)
    requires b == if before == [] then Bucket(r.capacity, now) else r.After(before)
    ensures var t := b.tokens + (now - b.last) as real / 1000.0 * r.refillPerSec;
      var tokens := if t > r.capacity then r.capacity else t;
      && (r.Granted(before + [now], |before|) <==> tokens >= 1.0)
      && r.After(before + [now]) == Bucket(if tokens >= 1.0 then tokens - 1.0 else tokens, now)
  {
    RefilledIs(r, b, now);
    FoundIs(r, before, b, now);
    hide Rate.Refilled, Rate.Earned, Rate.Found, Rate.After;
    var times := before + [now];
    assert times[..|times|] == times;
    AfterIs(r, times, |before|);
  }

  // ---------------------------------------------------------------- the limiter

  class Limiter {
    const rate: Rate
    var buckets: map<string, Bucket>

    /** When each caller has knocked so far. */
    ghost var calls: map<string, seq<int>>

    ghost predicate Valid()
      reads this
    {
      buckets.Keys == calls.Keys && forall id :: id in calls ==> |calls[id]| > 0 && buckets[id] == rate.After(calls[id])
    }

    constructor (rate: Rate)
      ensures Valid() && this.rate == rate && calls == map[]
    {
      this.rate, buckets, calls := rate, map[], map[];
    }

    /** The answer is a function of this caller's own calls; nobody else's bucket moves. */
    method Take(id: string, now: int) returns (ok: bool)
      requires Valid()
      modifies this
      ensures Valid()
      ensures calls == old(calls)[id := (if id in old(calls) then old(calls)[id] else []) + [now]]
      ensures ok <==> rate.Granted(calls[id], |calls[id]| - 1)
      ensures forall other :: other != id && other in old(buckets) ==>
        other in buckets && buckets[other] == old(buckets)[other]
    {
      hide Rate.After, Rate.Found, Rate.Refilled, Rate.Charged;
      ghost var before := if id in calls then calls[id] else [];
      ghost var times := before + [now];
      var b := if id in buckets then buckets[id] else Bucket(rate.capacity, now);
      TakeIs(rate, before, b, now);
      var elapsed := (now - b.last) as real / 1000.0;
      var tokens := b.tokens + elapsed * rate.refillPerSec;
      if tokens > rate.capacity { tokens := rate.capacity; }
      ok := tokens >= 1.0;
      if ok { tokens := tokens - 1.0; }
      buckets := buckets[id := Bucket(tokens, now)];
      calls := calls[id := times];
    }
  }
}
