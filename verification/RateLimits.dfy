/** The token-bucket limiter of internal/ratelimit/limiter.go.

  Tokens and seconds are reals.  A call reads the clock, then takes the mutex and
  is served: `Allow` is the second half, with the reading as an argument, so one
  serving is one step and readings of overlapping calls may arrive in any order.
  The order in which Go ranges over the bucket map is left open, and with it the
  choice between equally stale victims. */
module RateLimits {
  datatype Config = Config(rate: real, burst: real, idle: real, maxKeys: nat)

  datatype Bucket = Bucket(tokens: real, seen: real)

  type Buckets = map<string, Bucket>

  predicate Enabled(cfg: Config) {
    cfg.rate > 0.0 && cfg.burst > 0.0
  }

  predicate IsIdle(cfg: Config, b: Bucket, now: real) {
    now - b.seen > cfg.idle
  }

  function Live(cfg: Config, buckets: Buckets, now: real): Buckets {
    map k | k in buckets && !IsIdle(cfg, buckets[k], now) :: buckets[k]
  }

  ghost predicate Stalest(buckets: Buckets, key: string) {
    key in buckets && forall k :: k in buckets ==> buckets[key].seen <= buckets[k].seen
  }

  /** The map was full of keys that are not idle, so one has to go. */
  predicate Pressed(cfg: Config, buckets: Buckets, now: real) {
    |buckets| >= cfg.maxKeys && |Live(cfg, buckets, now)| >= cfg.maxKeys
  }

  /** A sweep drops the idle buckets and, under pressure, a stalest one.  (The
    code uses the empty key to mean "none found" and so never evicts it.) */
  ghost predicate Swept(cfg: Config, before: Buckets, after: Buckets, now: real) {
    var live := Live(cfg, before, now);
    if Pressed(cfg, before, now)
    then exists victim :: Stalest(live, victim) && after == if victim == "" then live else live - {victim}
    else after == live
  }

  /** The tokens a bucket accrues in a time. */
  function Earned(cfg: Config, seconds: real): real {
    seconds * cfg.rate
  }

  lemma EarnedIsRateTimesTime(cfg: Config, seconds: real)
    ensures Earned(cfg, seconds) == cfg.rate * seconds
  {
  }

  function Refill(cfg: Config, b: Bucket, now: real): Bucket {
    var elapsed := now - b.seen;
    var grown := if elapsed > 0.0 then b.tokens + Earned(cfg, elapsed) else b.tokens;
    Bucket(if elapsed > 0.0 && grown > cfg.burst then cfg.burst else grown, now)
  }

  /** The bucket a call draws on. */
  function Entry(cfg: Config, buckets: Buckets, key: string, now: real): Bucket {
    if key in buckets then Refill(cfg, buckets[key], now) else Bucket(cfg.burst, now)
  }

  function Spend(b: Bucket): Bucket {
    if b.tokens >= 1.0 then b.(tokens := b.tokens - 1.0) else b
  }

  /** Seconds until one whole token exists, and never less than one second. */
  function Wait(cfg: Config, b: Bucket): real
    requires cfg.rate > 0.0
  {
    if b.tokens >= 1.0 then 0.0
    else if (1.0 - b.tokens) / cfg.rate < 1.0 then 1.0 else (1.0 - b.tokens) / cfg.rate
  }

  datatype Answer = Answer(ok: bool, wait: real)

  function AnswerFor(cfg: Config, entry: Bucket): Answer
    requires cfg.rate > 0.0
  {
    Answer(entry.tokens >= 1.0, Wait(cfg, entry))
  }

  /** Only a key without a bucket sweeps before it is given one. */
  ghost predicate MadeRoom(cfg: Config, before: Buckets, key: string, kept: Buckets, now: real) {
    if key in before then kept == before else Swept(cfg, before, kept, now)
  }

  /** One call served with the reading `now`: `after` and `answer` are possible from `before`. */
  ghost predicate Allows(cfg: Config, before: Buckets, key: string, now: real, answer: Answer, after: Buckets) {
    if !Enabled(cfg) then after == before && answer == Answer(true, 0.0)
    else
      var entry := Entry(cfg, before, key, now);
      && answer == AnswerFor(cfg, entry)
      && exists kept :: MadeRoom(cfg, before, key, kept, now) && after == kept[key := Spend(entry)]
  }

  class Limiter {
    const cfg: Config
    var buckets: Buckets

    ghost predicate Valid() {
      cfg.maxKeys >= 1
    }

    constructor (perMinute: int, burst: int)
      ensures Valid() && buckets == map[]
      ensures cfg == Config(perMinute as real / 60.0, burst as real, 600.0, 10000)
    {
      cfg := Config(perMinute as real / 60.0, burst as real, 600.0, 10000);
      buckets := map[];
    }

    method Allow(key: string, now: real) returns (ok: bool, wait: real)
      requires Valid()
      modifies this
      ensures Allows(cfg, old(buckets), key, now, Answer(ok, wait), buckets)
      ensures if ok then wait == 0.0 else wait >= 1.0
      ensures if cfg.rate <= 0.0 || cfg.burst <= 0.0 then ok && buckets == old(buckets)
              else key in buckets && buckets[key].seen == now
    {
      hide Earned;
      if cfg.rate <= 0.0 || cfg.burst <= 0.0 {
        return true, 0.0;
      }
      var entry: Bucket;
      if key !in buckets {
        Sweep(now);
        entry := Bucket(cfg.burst, now);
      } else {
        entry := buckets[key];
        var elapsed := now - entry.seen;
        if elapsed > 0.0 {
          entry := entry.(tokens := entry.tokens + Earned(cfg, elapsed));
          if entry.tokens > cfg.burst {
            entry := entry.(tokens := cfg.burst);
          }
        }
        entry := entry.(seen := now);
      }
      ghost var kept := buckets;
      assert MadeRoom(cfg, old(buckets), key, kept, now);
      if entry.tokens >= 1.0 {
        entry := entry.(tokens := entry.tokens - 1.0);
        buckets := buckets[key := entry];
        return true, 0.0;
      }
      buckets := buckets[key := entry];
      wait := (1.0 - entry.tokens) / cfg.rate;
      if wait < 1.0 {
        wait := 1.0;
      }
      return false, wait;
    }

    method Sweep(now: real)
      requires Valid()
      modifies this
      ensures Swept(cfg, old(buckets), buckets, now)
    {
      ghost var before := buckets;
      var todo := buckets.Keys;
      if |buckets| < cfg.maxKeys {
        while todo != {}
          invariant todo <= before.Keys
          invariant buckets == map k | k in before && (k in todo || !IsIdle(cfg, before[k], now)) :: before[k]
        {
          var key :| key in todo;
          todo := todo - {key};
          if now - buckets[key].seen > cfg.idle {
            buckets := buckets - {key};
          }
        }
        return;
      }
      var stalestKey, stalest, found := "", 0.0, false;
      while todo != {}
        invariant todo <= before.Keys
        invariant buckets == map k | k in before && (k in todo || !IsIdle(cfg, before[k], now)) :: before[k]
        invariant !found ==> buckets.Keys == todo
        invariant found ==>
                    && stalestKey in buckets && stalestKey !in todo && stalest == buckets[stalestKey].seen
                    && forall k :: k in buckets && k !in todo ==> stalest <= buckets[k].seen
      {
        var key :| key in todo;
        todo := todo - {key};
        if now - buckets[key].seen > cfg.idle {
          buckets := buckets - {key};
        } else if !found || buckets[key].seen < stalest {
          stalestKey, stalest, found := key, buckets[key].seen, true;
        }
      }
      assert buckets == Live(cfg, before, now);
      if |buckets| >= cfg.maxKeys {
        assert Stalest(buckets, stalestKey);
        if stalestKey != "" {
          buckets := buckets - {stalestKey};
        }
      }
    }

    method Tracked() returns (n: nat)
      ensures n == |buckets|
    {
      n := |buckets|;
    }
  }
}
