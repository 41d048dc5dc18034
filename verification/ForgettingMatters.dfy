/** The refill condition is exact: if a bucket needs longer than the idle time to
  fill, some run of the limiter, its readings in order, admits a call that a
  limiter which never forgets would refuse. */
module ForgettingMatters {
  import opened RateLimits
  import opened RateLimitRuns

  ghost predicate Steady(cfg: Config, run: seq<Turn>) {
    IsRun(cfg, run) && ClockAdvances(run) && NoPressure(cfg, run)
  }

  ghost function Held(run: seq<Turn>): Buckets {
    Before(run, |run|)
  }

  ghost function Remembered(cfg: Config, run: seq<Turn>): Buckets {
    Memory(cfg, run, |run|)
  }

  lemma {:induction false} MemoryOfPrefix(cfg: Config, run: seq<Turn>, more: seq<Turn>, i: nat)
    requires run <= more && i <= |run|
    ensures Memory(cfg, more, i) == Memory(cfg, run, i)
  {
    if i > 0 {
      MemoryOfPrefix(cfg, run, more, i - 1);
    }
  }

  /** Any call that needs no eviction extends a run. */
  lemma Extend(cfg: Config, run: seq<Turn>, key: string, now: real) returns (turn: Turn)
    requires Enabled(cfg) && Steady(cfg, run) && (run != [] ==> run[|run| - 1].now <= now)
    requires key in Held(run) || |Held(run)| < cfg.maxKeys
    ensures turn.key == key && turn.now == now && Steady(cfg, run + [turn])
    ensures turn.answer == AnswerFor(cfg, Entry(cfg, Held(run), key, now))
    ensures turn.after == Held(run + [turn])
    ensures turn.after ==
              (if key in Held(run) then Held(run) else Live(cfg, Held(run), now))[key := Spend(Entry(cfg, Held(run), key, now))]
    ensures Remembered(cfg, run + [turn]) == Remember(cfg, Remembered(cfg, run), key, now)
  {
    var before := Held(run);
    var kept := if key in before then before else Live(cfg, before, now);
    var entry := Entry(cfg, before, key, now);
    turn := Turn(key, now, AnswerFor(cfg, entry), kept[key := Spend(entry)]);
    var more := run + [turn];
    assert MadeRoom(cfg, before, key, kept, now);
    forall i {:trigger Before(more, i)} | 0 <= i < |more|
      ensures Before(more, i) == if i < |run| then Before(run, i) else before
      ensures Allows(cfg, Before(more, i), more[i].key, more[i].now, more[i].answer, more[i].after)
      ensures more[i].key in Before(more, i) || !Pressed(cfg, Before(more, i), more[i].now)
    {
      if i < |run| {
        assert Before(more, i) == Before(run, i) && more[i] == run[i];
      }
    }
    MemoryOfPrefix(cfg, run, more, |run|);
  }

  /** `calls` more calls on one key at one instant, while it still has tokens. */
  lemma {:induction false} Drain(cfg: Config, run: seq<Turn>, key: string, now: real, calls: nat) returns (more: seq<Turn>)
    requires Enabled(cfg) && Steady(cfg, run) && (run != [] ==> run[|run| - 1].now <= now)
    requires key in Held(run) || (|Held(run)| < cfg.maxKeys && calls > 0)
    requires Entry(cfg, Held(run), key, now).tokens >= calls as real
    ensures Steady(cfg, more) && run <= more && |more| == |run| + calls && (calls > 0 ==> more[|more| - 1].now == now)
    ensures key in Held(more) && Held(more).Keys <= Held(run).Keys + {key}
    ensures Entry(cfg, Held(more), key, now) == Bucket(Entry(cfg, Held(run), key, now).tokens - calls as real, now)
    ensures var had, left := Entry(cfg, Remembered(cfg, run), key, now).tokens, Entry(cfg, Remembered(cfg, more), key, now).tokens;
            && (had >= calls as real ==> left == had - calls as real)
            && (had < calls as real + 1.0 ==> left < 1.0)
    ensures calls > 0 ==> Held(more)[key].seen == now
    ensures calls > 0 ==> key in Remembered(cfg, more) && Remembered(cfg, more)[key].seen == now
    decreases calls
  {
    if calls == 0 {
      return run;
    }
    hide Refill, Live;
    var turn := Extend(cfg, run, key, now);
    var entry, kept := Entry(cfg, Held(run), key, now), Entry(cfg, Remembered(cfg, run), key, now);
    more := Drain(cfg, run + [turn], key, now, calls - 1);
    if calls == 1 {
      assert more == run + [turn];
    }
  }

  /** Spend the whole burst at 0, then let another key's first call sweep the
    bucket just after the idle time. */
  lemma SpendAndForget(cfg: Config, burst: nat, wake: real) returns (run: seq<Turn>)
    requires Enabled(cfg) && cfg.idle >= 0.0 && cfg.burst == burst as real && cfg.maxKeys >= 2
    requires cfg.idle < wake && Earned(cfg, wake) < cfg.burst
    ensures Steady(cfg, run) && run != [] && run[|run| - 1].now == wake
    ensures Held(run).Keys == {"b"}
    ensures "a" in Remembered(cfg, run) && Remembered(cfg, run)["a"] == Bucket(0.0, 0.0)
  {
    var drained := Drain(cfg, [], "a", 0.0, burst);
    OneKey(Held(drained), "a");
    var swept := Extend(cfg, drained, "b", wake);
    run := drained + [swept];
  }

  /** The run: ... and spend the whole burst again. */
  lemma ForgettingShows(cfg: Config, burst: nat) returns (run: seq<Turn>, i: nat)
    requires Enabled(cfg) && cfg.idle >= 0.0 && cfg.burst == burst as real && cfg.maxKeys >= 2
    requires Earned(cfg, cfg.idle) < cfg.burst
    ensures Steady(cfg, run) && i < |run|
    ensures run[i].answer.ok && !Unforgetting(cfg, run, i).ok
  {
    var wake := cfg.idle + (cfg.burst - Earned(cfg, cfg.idle)) / (2.0 * cfg.rate);
    HalfWay(cfg, wake);
    var woken := SpendAndForget(cfg, burst, wake);
    OneKey(Held(woken), "b");
    assert Entry(cfg, Remembered(cfg, woken), "a", wake).tokens == Earned(cfg, wake) < cfg.burst;
    var spent := woken;
    if burst > 1 {
      spent := Drain(cfg, woken, "a", wake, burst - 1);
    }
    var last := Extend(cfg, spent, "a", wake);
    run, i := spent + [last], |spent|;
    MemoryOfPrefix(cfg, spent, run, |spent|);
  }

  lemma HalfWay(cfg: Config, wake: real)
    requires Enabled(cfg) && Earned(cfg, cfg.idle) < cfg.burst
    requires wake == cfg.idle + (cfg.burst - Earned(cfg, cfg.idle)) / (2.0 * cfg.rate)
    ensures cfg.idle < wake && Earned(cfg, wake) < cfg.burst
  {
  }

  lemma OneKey(held: Buckets, key: string)
    requires held.Keys <= {key}
    ensures |held| <= 1
  {
    SubsetSize(held.Keys, {key});
    assert |held.Keys| == |held|;
  }

  /** A run without evictions in which calls that find no bucket come in order. */
  ghost predicate Settled(cfg: Config, run: seq<Turn>) {
    IsRun(cfg, run) && ReturnsInOrder(run) && NoPressure(cfg, run)
  }

  /** For a whole-number burst and room for two keys, forgetting idle buckets is
    invisible on every such run if and only if a bucket fills within the idle
    time. */
  lemma InvisibleExactlyWhen(cfg: Config, burst: nat)
    requires Enabled(cfg) && cfg.idle >= 0.0 && cfg.burst == burst as real && cfg.maxKeys >= 2
    ensures (forall run: seq<Turn>, i: nat :: Settled(cfg, run) && i < |run| ==> run[i].answer == Unforgetting(cfg, run, i))
            <==> cfg.burst <= Earned(cfg, cfg.idle)
  {
    if cfg.burst <= Earned(cfg, cfg.idle) {
      forall run: seq<Turn>, i: nat | Settled(cfg, run) && i < |run|
        ensures run[i].answer == Unforgetting(cfg, run, i)
      {
        ForgettingIsInvisible(cfg, run, i);
      }
    } else {
      var run, i := ForgettingShows(cfg, burst);
      assert Settled(cfg, run) && run[i].answer != Unforgetting(cfg, run, i);
    }
  }
}
