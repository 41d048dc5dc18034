/** The retrying client of internal/adapters/httpx/client.go: the attempt loop
  of `Do`, and the delay arithmetic of `backoff` in wrapping 64-bit integers. */
module Retry {
  import opened Breakers
  import CircuitRuns
  import opened Words

  // ------------------------------------------------------ upstream failures

  datatype Kind =
    | NotFound | Unauthorized | RateLimited | Timeout | Canceled
    | CircuitOpen | Unavailable | Decode | TooLarge

  predicate Retryable(kind: Kind) {
    kind == RateLimited || kind == Timeout || kind == Unavailable
  }

  function KindForStatus(status: int): Kind {
    if status == 401 || status == 403 then Unauthorized
    else if status == 404 then NotFound
    else if status == 408 then Timeout
    else if status == 429 then RateLimited
    else Unavailable
  }

  /** Only three statuses are deterministic failures; every other refusal, a 400
    or a redirect included, is retried and counts against the circuit. */
  lemma DeterministicStatuses(status: int)
    ensures !Retryable(KindForStatus(status)) <==> status == 401 || status == 403 || status == 404
  {
  }

  /** What the one report of a call says: a success, a failure that counts against
    the circuit, or, for the three statuses, one that does not. */
  lemma VerdictTells(status: int, retryAfter: int)
    ensures Verdict(Ok) == CircuitRuns.Success
    ensures Verdict(Failed(KindForStatus(status), retryAfter)) ==
            if status in {401, 403, 404} then CircuitRuns.Deterministic else CircuitRuns.Counted
  {
  }

  /** A failure without a status is retried only if it is of a kind that some
    retried status has: a timeout or an upstream that is not available. */
  lemma RetriedKindsAreThoseOfStatuses(kind: Kind)
    ensures Retryable(kind) <==> exists status :: KindForStatus(status) == kind && status !in {401, 403, 404}
    ensures Retryable(kind) ==> kind !in {NotFound, Unauthorized, Canceled, CircuitOpen, Decode, TooLarge}
  {
    assert KindForStatus(408) == Timeout && KindForStatus(429) == RateLimited && KindForStatus(500) == Unavailable;
  }

  // ------------------------------------------------------- delay arithmetic

  /** The 64-bit two's-complement value of an integer. */
  function Wrap64(x: int): int {
    var low := x % TWO64;
    if low >= TWO63 then low - TWO64 else low
  }

  /** Go's `x << k` on a 64-bit integer: bits shifted out are lost, and a shift
    of 64 or more leaves 0. */
  function ShiftLeft(x: int, k: nat): int {
    if k >= 64 then 0 else Wrap64(x * Pow2(k))
  }

  datatype Policy = Policy(maxAttempts: int, baseDelay: int, maxDelay: int)

  predicate Bounded(p: Policy) {
    p.maxAttempts >= 1 && 0 < p.baseDelay < TWO63 && 0 < p.maxDelay < TWO63
  }

  const DEFAULT_POLICY := Policy(3, 100_000_000, 2_000_000_000)

  function Delay(p: Policy, attempt: nat): int
    requires attempt >= 1
  {
    var delay := ShiftLeft(p.baseDelay, attempt - 1);
    if delay > p.maxDelay || delay <= 0 then p.maxDelay else delay
  }

  /** `rand.Int64N(delay) + 1`, with the random draw as an argument. */
  function FullJitter(delay: int, draw: nat): int {
    if delay <= 0 then 0 else draw % delay + 1
  }

  function Backoff(p: Policy, attempt: nat, retryAfter: int, draw: nat): int
    requires attempt >= 1
  {
    if retryAfter > 0 then
      if retryAfter > p.maxDelay then p.maxDelay else retryAfter
    else FullJitter(Delay(p, attempt), draw)
  }

  function Min(a: int, b: int): int {
    if a <= b then a else b
  }

  lemma {:induction false} Pow2Adds(a: nat, b: nat)
    ensures Pow2(a + b) == Pow2(a) * Pow2(b)
    decreases b
  {
    if b > 0 {
      Pow2Adds(a, b - 1);
      assert Pow2(a + b) == 2 * Pow2(a + (b - 1));
      assert Pow2(a) * Pow2(b) == 2 * (Pow2(a) * Pow2(b - 1));
    } else {
      assert Pow2(b) == 1;
    }
  }

  lemma Pow2Of8()
    ensures Pow2(1) == 2 && Pow2(8) == 256
  {
  }

  lemma Pow2Of64()
    ensures Pow2(64) == TWO64 && Pow2(63) == TWO63
  {
    hide Pow2;
    Pow2Of8();
    Pow2Adds(8, 8);
    Pow2Adds(16, 16);
    Pow2Adds(32, 32);
    Pow2Adds(63, 1);
  }

  lemma Distribute(a: int, b: int, p: int)
    ensures (a - b) * p == a * p - b * p
  {
  }

  lemma Monotone(a: int, b: int, c: int)
    requires 0 <= a <= b && 0 <= c
    ensures a * c <= b * c && c * a <= c * b
  {
  }

  /** A shift of 64 or more leaves nothing of a product that was huge. */
  lemma FarShift(x: int, k: nat)
    requires x > 0 && k >= 64
    ensures ShiftLeft(x, k) == 0 && x * Pow2(k) >= TWO64
  {
    Pow2Of64();
    Pow2Adds(64, k - 64);
    hide Pow2;
    Monotone(1, Pow2(k - 64), TWO64);
    Monotone(1, x, Pow2(k));
  }

  /** The bits of `x` that a shift by `k` keeps. */
  function Kept(x: int, k: nat): (r: int)
    requires k < 64
    ensures 0 <= r < Pow2(64 - k)
  {
    x % Pow2(64 - k)
  }

  lemma SplitProduct(x: int, d: int, high: int, r: int, low: int)
    requires x == d * high + r && high * low == TWO64
    ensures x * low == d * TWO64 + r * low
  {
    assert d * high * low == d * (high * low);
  }

  lemma KeptSplits(x: int, k: nat)
    requires k < 64
    ensures x == (x / Pow2(64 - k)) * Pow2(64 - k) + Kept(x, k)
  {
    hide Pow2;
  }

  lemma SmallRemainder(d: int, m: int)
    requires 0 <= m < TWO64
    ensures (d * TWO64 + m) % TWO64 == m
  {
  }

  lemma PowersOf64(k: nat)
    requires k < 64
    ensures Pow2(64 - k) * Pow2(k) == TWO64 && Pow2(63 - k) * Pow2(k) == TWO63
  {
    Pow2Of64();
    Pow2Adds(64 - k, k);
    Pow2Adds(63 - k, k);
  }

  /** The bits shifted out are lost: the 64 that stay are the kept bits, moved up. */
  lemma ShiftLosesHighBits(x: int, k: nat)
    requires k < 64
    ensures 0 <= Kept(x, k) * Pow2(k) < TWO64
    ensures (x * Pow2(k)) % TWO64 == Kept(x, k) * Pow2(k)
  {
    PowersOf64(k);
    KeptSplits(x, k);
    hide Pow2, Kept;
    var high, low, r := Pow2(64 - k), Pow2(k), Kept(x, k);
    var d := x / high;
    SplitProduct(x, d, high, r, low);
    BelowPower(r, high, low);
    SmallRemainder(d, r * low);
  }

  lemma BelowPower(r: int, high: int, low: int)
    requires 0 <= r < high && low > 0
    ensures 0 <= r * low <= high * low - low
  {
    Monotone(r + 1, high, low);
    Distribute(high, r + 1, low);
  }

  /** What a shift of less than 64 leaves: the kept bits moved up, negative when
    the highest of them is set. */
  lemma ShiftIs(x: int, k: nat)
    requires k < 64
    ensures var r := Kept(x, k);
            ShiftLeft(x, k) == if r < Pow2(63 - k) then r * Pow2(k) else r * Pow2(k) - TWO64
    ensures ShiftLeft(x, k) > 0 <==> 0 < Kept(x, k) < Pow2(63 - k)
  {
    ShiftLosesHighBits(x, k);
    PowersOf64(k);
    hide Pow2, Kept;
    var r, half, low := Kept(x, k), Pow2(63 - k), Pow2(k);
    if r < half {
      BelowPower(r, half, low);
    } else {
      Monotone(half, r, low);
    }
    if r > 0 {
      Monotone(1, r, low);
    }
  }

  /** A product that fits is the shift. */
  lemma NearShift(x: int, k: nat)
    requires x > 0 && k < 64 && x * Pow2(k) < TWO63
    ensures 0 < ShiftLeft(x, k) == x * Pow2(k)
  {
    hide Pow2;
    Monotone(1, Pow2(k), x);
  }

  /** What survives an overflow is not positive or at least 2^k. */
  lemma Survivor(x: int, k: nat)
    requires k < 64
    ensures ShiftLeft(x, k) <= 0 || ShiftLeft(x, k) >= Pow2(k)
  {
    ShiftIs(x, k);
    hide Pow2, ShiftLeft, Kept;
    if 0 < Kept(x, k) {
      Monotone(1, Kept(x, k), Pow2(k));
    }
  }

  lemma OverflowNeedsHighShift(x: int, most: int, power: int)
    requires x > 0 && power > 0 && x * most < TWO63 <= x * power
    ensures power > most
  {
    if power <= most {
      Monotone(power, most, x);
    }
  }

  /** When BaseDelay * MaxDelay fits in 63 bits, the wrapping shift and its
    clamp give the doubled delay capped by MaxDelay for every attempt, however
    far past 63 bits the shift goes. */
  lemma DelayDoublesThenCaps(p: Policy, attempt: nat)
    requires Bounded(p) && attempt >= 1
    requires p.baseDelay * p.maxDelay < TWO63
    ensures Delay(p, attempt) == Min(p.baseDelay * Pow2(attempt - 1), p.maxDelay)
  {
    hide Pow2, ShiftLeft;
    var k := attempt - 1;
    if k >= 64 {
      FarShift(p.baseDelay, k);
    } else if p.baseDelay * Pow2(k) < TWO63 {
      NearShift(p.baseDelay, k);
    } else {
      OverflowNeedsHighShift(p.baseDelay, p.maxDelay, Pow2(k));
      Survivor(p.baseDelay, k);
    }
  }

  /** The product overflows, and the bits that stay make a positive delay shorter
    than the cap. */
  predicate Collapses(p: Policy, attempt: nat)
    requires attempt >= 1
  {
    var k := attempt - 1;
    && k < 64
    && p.baseDelay * Pow2(k) >= TWO63
    && var kept := Kept(p.baseDelay, k);
       0 < kept < Pow2(63 - k) && kept * Pow2(k) < p.maxDelay
  }

  /** For any policy, an attempt gets its documented delay exactly when its delay
    does not collapse; from the 65th on it always does. */
  lemma DelayExactlyWhen(p: Policy, attempt: nat)
    requires Bounded(p) && attempt >= 1
    ensures Delay(p, attempt) == Min(p.baseDelay * Pow2(attempt - 1), p.maxDelay) <==> !Collapses(p, attempt)
    ensures attempt > 64 ==> !Collapses(p, attempt)
  {
    hide Pow2, ShiftLeft, Kept;
    var k := attempt - 1;
    if k >= 64 {
      FarShift(p.baseDelay, k);
    } else {
      ShiftIs(p.baseDelay, k);
      if p.baseDelay * Pow2(k) < TWO63 {
        NearShift(p.baseDelay, k);
      }
    }
  }

  /** ... and some policy's does collapse. */
  lemma DelayCanCollapse()
    ensures var p := Policy(64, 5, TWO63 - 1);
            Bounded(p) && Delay(p, 63) == TWO63 / 2 < Min(p.baseDelay * Pow2(62), p.maxDelay)
  {
    Pow2Of64();
    assert Pow2(63) == 2 * Pow2(62);
  }

  /** Every sleep lies between one nanosecond and MaxDelay. */
  lemma BackoffInRange(p: Policy, attempt: nat, retryAfter: int, draw: nat)
    requires Bounded(p) && attempt >= 1
    ensures 1 <= Backoff(p, attempt, retryAfter, draw) <= p.maxDelay
    ensures retryAfter <= 0 ==> Backoff(p, attempt, retryAfter, draw) <= Delay(p, attempt)
    ensures 0 < retryAfter <= p.maxDelay ==> Backoff(p, attempt, retryAfter, draw) == retryAfter
    ensures retryAfter > p.maxDelay ==> Backoff(p, attempt, retryAfter, draw) == p.maxDelay
  {
  }

  /** Without a Retry-After, the sleep is spread over the whole delay: each of
    1 .. delay nanoseconds comes of exactly one of the draws 0 .. delay - 1. */
  lemma JitterCoversTheDelay(p: Policy, attempt: nat, retryAfter: int, sleep: int)
    requires Bounded(p) && attempt >= 1 && retryAfter <= 0 && 1 <= sleep <= Delay(p, attempt)
    ensures forall draw: nat :: draw < Delay(p, attempt) ==>
              (Backoff(p, attempt, retryAfter, draw) == sleep <==> draw == sleep - 1)
    ensures exists draw: nat :: draw < Delay(p, attempt) && Backoff(p, attempt, retryAfter, draw) == sleep
  {
    hide Delay;
    forall draw: nat | draw < Delay(p, attempt)
      ensures FullJitter(Delay(p, attempt), draw) == draw + 1
    {
    }
    assert Backoff(p, attempt, retryAfter, sleep - 1) == sleep;
  }

  // --------------------------------------------------------- the call itself

  datatype Reply = Ok | Failed(kind: Kind, retryAfter: int)

  /** What a call cannot decide for itself: how each attempt ends, whether the
    caller goes away during the sleep after it, the random draws, and the
    clock at the two moments the breaker reads it. */
  datatype World = World(
    reply: nat -> Reply, canceled: nat -> bool, draw: nat -> nat, admitAt: int, reportAt: int)

  datatype Result = Succeeded | Error(kind: Kind)

  function Sum(xs: seq<int>): int {
    if xs == [] then 0 else Sum(xs[..|xs| - 1]) + xs[|xs| - 1]
  }

  lemma {:induction false} SumBounded(xs: seq<int>, most: int)
    requires forall i :: 0 <= i < |xs| ==> xs[i] <= most
    ensures Sum(xs) <= |xs| * most
  {
    if xs != [] {
      SumBounded(xs[..|xs| - 1], most);
      Distribute(|xs|, 1, most);
    }
  }

  predicate Retried(w: World, attempt: nat) {
    w.reply(attempt).Failed? && Retryable(w.reply(attempt).kind)
  }

  /** What a finished call with `most` attempts must look like: every attempt
    before the last failed retryably and was slept after, the last one ended it,
    and the sleeps are the policy's backoffs in order. */
  predicate Finished(p: Policy, most: int, w: World, result: Result, tries: nat, slept: seq<int>) {
    && 1 <= tries <= most
    && (forall i :: 1 <= i < tries ==> Retried(w, i) && !w.canceled(i))
    && (Retried(w, tries) ==> tries == most || w.canceled(tries))
    && result == (match w.reply(tries)
                  case Ok => Succeeded
                  case Failed(kind, _) => Error(if Retryable(kind) && tries < most then Canceled else kind))
    && |slept| == (if Retried(w, tries) && tries < most then tries else tries - 1)
    && Sleeps(p, w, slept)
  }

  predicate Sleeps(p: Policy, w: World, slept: seq<int>) {
    forall i {:trigger slept[i]} :: 0 <= i < |slept| ==>
      Retried(w, i + 1) && slept[i] == Backoff(p, i + 1, w.reply(i + 1).retryAfter, w.draw(i + 1))
  }

  /** The one report a call makes about its last attempt. */
  function Verdict(reply: Reply): CircuitRuns.Outcome {
    match reply
    case Ok => CircuitRuns.Success
    case Failed(kind, _) => if Retryable(kind) then CircuitRuns.Counted else CircuitRuns.Deterministic
  }

  /** One call sleeps at most (attempts - 1) * MaxDelay in all, and never less
    than a nanosecond or more than MaxDelay at a time. */
  lemma SleepBudget(p: Policy, most: int, w: World, slept: seq<int>)
    requires Bounded(p) && Sleeps(p, w, slept) && |slept| <= most - 1
    ensures forall i :: 0 <= i < |slept| ==> 1 <= slept[i] <= p.maxDelay
    ensures Sum(slept) <= (most - 1) * p.maxDelay
  {
    forall i | 0 <= i < |slept|
      ensures 1 <= slept[i] <= p.maxDelay
    {
      var _ := slept[i];
      assert Retried(w, i + 1);
      BackoffInRange(p, i + 1, w.reply(i + 1).retryAfter, w.draw(i + 1));
    }
    SumBounded(slept, p.maxDelay);
    Monotone(|slept|, most - 1, p.maxDelay);
  }

  class Client {
    const retry: Policy
    const breaker: Breaker

    ghost predicate Valid() {
      Bounded(retry)
    }

    constructor (policy: Policy, settings: Settings)
      requires policy.baseDelay < TWO63 && policy.maxDelay < TWO63
      ensures Valid() && fresh(breaker) && breaker.View() == FRESH
      ensures policy.maxAttempts <= 0 ==> retry == DEFAULT_POLICY
      ensures policy.maxAttempts > 0 ==>
                retry == Policy(policy.maxAttempts,
                                if policy.baseDelay > 0 then policy.baseDelay else DEFAULT_POLICY.baseDelay,
                                if policy.maxDelay > 0 then policy.maxDelay else DEFAULT_POLICY.maxDelay)
      ensures breaker.settings ==
                if settings.failureThreshold == 0 && settings.openFor == 0
                then Settings(5, DEFAULT_OPEN_FOR, 1) else Defaulted(settings)
    {
      var p, s := policy, settings;
      if p.maxAttempts <= 0 {
        p := DEFAULT_POLICY;
      }
      if p.baseDelay <= 0 {
        p := p.(baseDelay := DEFAULT_POLICY.baseDelay);
      }
      if p.maxDelay <= 0 {
        p := p.(maxDelay := DEFAULT_POLICY.maxDelay);
      }
      if s.failureThreshold == 0 && s.openFor == 0 {
        s := Settings(5, DEFAULT_OPEN_FOR, 1);
      }
      retry := p;
      breaker := new Breaker(s);
    }

    /** One call.  A refused call never reaches the upstream; an admitted one
      makes its attempts, stays inside its sleep budget and hands its ticket
      back to the breaker exactly once. */
    method Do(idempotent: bool, w: World) returns (result: Result, tries: nat, slept: seq<int>)
      requires Valid()
      modifies breaker
      ensures var most := if idempotent then retry.maxAttempts else 1;
              var a := AllowOf(breaker.settings, old(breaker.View()), w.admitAt);
              if a.admitted then
                && Finished(retry, most, w, result, tries, slept)
                && breaker.View() ==
                   CircuitRuns.ReportOf(breaker.settings, a.after, a.ticket, Verdict(w.reply(tries)), w.reportAt)
                && Sum(slept) <= (most - 1) * retry.maxDelay
              else
                result == Error(CircuitOpen) && tries == 0 && slept == [] && breaker.View() == a.after
    {
      hide AllowOf, SucceedOf, FailOf, Backoff, Sum, KindForStatus;
      var admitted, ticket := breaker.Allow(w.admitAt);
      result, tries, slept := Error(CircuitOpen), 0, [];
      if !admitted {
        return;
      }
      var attempts := 1;
      if idempotent {
        attempts := retry.maxAttempts;
      }
      label Admitted:
      while true
        invariant 0 <= tries < attempts && |slept| == tries
        invariant breaker.View() == old@Admitted(breaker.View())
        invariant forall i :: 1 <= i <= tries ==> Retried(w, i) && !w.canceled(i)
        invariant Sleeps(retry, w, slept)
        decreases attempts - tries
      {
        tries := tries + 1;
        var reply := w.reply(tries);
        if reply == Ok {
          breaker.Succeed(ticket);
          result := Succeeded;
          break;
        }
        result := Error(reply.kind);
        if !Retryable(reply.kind) {
          breaker.Fail(ticket, false, w.reportAt);
          break;
        }
        if tries == attempts {
          breaker.Fail(ticket, true, w.reportAt);
          break;
        }
        slept := slept + [Backoff(retry, tries, reply.retryAfter, w.draw(tries))];
        assert Retried(w, |slept|) && Sleeps(retry, w, slept);
        if w.canceled(tries) {
          breaker.Fail(ticket, true, w.reportAt);
          result := Error(Canceled);
          break;
        }
      }
      SleepBudget(retry, attempts, w, slept);
    }
  }
}
