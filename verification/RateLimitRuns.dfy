/** Runs of the limiter: its memory bound, its equivalence with a limiter that
  never forgets, and the admission bound over any window.

  A call reads the clock before it takes the mutex, so the readings of a run,
  listed in the order the calls are served, need not rise even though the clock
  does (`RateLimitClocks` shows which lists of readings a clock gives: all of
  them).  Nothing here assumes that they rise unless it says so. */
module RateLimitRuns {
  import opened RateLimits

  /** One call of a run, in the order served: its key, the time it had read, what
    was answered, and the buckets it left. */
  datatype Turn = Turn(key: string, now: real, answer: Answer, after: Buckets)

  function Before(run: seq<Turn>, i: nat): Buckets
    requires i <= |run|
  {
    if i == 0 then map[] else run[i - 1].after
  }

  ghost predicate IsRun(cfg: Config, run: seq<Turn>) {
    forall i {:trigger Before(run, i)} :: 0 <= i < |run| ==>
      Allows(cfg, Before(run, i), run[i].key, run[i].now, run[i].answer, run[i].after)
  }

  /** Calls are served in the order of their readings. */
  predicate ClockAdvances(run: seq<Turn>) {
    forall i, j :: 0 <= i < j < |run| ==> run[i].now <= run[j].now
  }

  /** A call that finds no bucket for its key has the latest reading so far.  Calls
    that find one may come in any order. */
  predicate ReturnsInOrder(run: seq<Turn>) {
    forall i, m :: 0 <= m < i < |run| && run[i].key !in Before(run, i) ==> run[m].now <= run[i].now
  }

  /** No call of the run evicts a bucket that is not idle. */
  predicate NoPressure(cfg: Config, run: seq<Turn>) {
    forall i {:trigger Before(run, i)} :: 0 <= i < |run| ==>
      run[i].key in Before(run, i) || !Pressed(cfg, Before(run, i), run[i].now)
  }

  // ----------------------------------------------------- the memory bound

  ghost predicate Bounded(cfg: Config, buckets: Buckets) {
    && |buckets| <= cfg.maxKeys
    && "" !in buckets
    && forall k :: k in buckets ==> 0.0 <= buckets[k].tokens <= cfg.burst
  }

  lemma LiveIsSmaller(cfg: Config, buckets: Buckets, now: real)
    ensures |Live(cfg, buckets, now)| <= |buckets|
  {
    var live := Live(cfg, buckets, now);
    SubsetSize(live.Keys, buckets.Keys);
    assert |live.Keys| == |live| && |buckets.Keys| == |buckets|;
  }

  lemma {:induction false} SubsetSize(a: set<string>, b: set<string>)
    requires a <= b
    ensures |a| <= |b|
  {
    if a != {} {
      var x :| x in a;
      SubsetSize(a - {x}, b - {x});
    }
  }

  lemma SweepMakesRoom(cfg: Config, before: Buckets, kept: Buckets, now: real)
    requires cfg.maxKeys >= 1 && Bounded(cfg, before) && Swept(cfg, before, kept, now)
    ensures |kept| < cfg.maxKeys
    ensures forall k :: k in kept ==> k in before && kept[k] == before[k]
  {
    var live := Live(cfg, before, now);
    LiveIsSmaller(cfg, before, now);
    if Pressed(cfg, before, now) {
      var victim :| Stalest(live, victim) && kept == if victim == "" then live else live - {victim};
    }
  }

  /** `Earned` is linear and, at a positive rate, increasing.  The run lemmas use
    only this and keep the product itself out of sight. */
  lemma EarnedIsLinear(cfg: Config, a: real, b: real)
    requires cfg.rate > 0.0
    ensures Earned(cfg, b) - Earned(cfg, a) == Earned(cfg, b - a)
    ensures a <= b <==> Earned(cfg, a) <= Earned(cfg, b)
    ensures Earned(cfg, 0.0) == 0.0
  {
    if a <= b {
      assert (b - a) * cfg.rate >= 0.0;
    } else {
      assert (a - b) * cfg.rate > 0.0;
    }
  }

  lemma RefillInRange(cfg: Config, b: Bucket, now: real)
    requires Enabled(cfg) && 0.0 <= b.tokens <= cfg.burst
    ensures 0.0 <= Refill(cfg, b, now).tokens <= cfg.burst
  {
    hide Earned;
    EarnedIsLinear(cfg, 0.0, now - b.seen);
  }

  lemma AllowKeepsBounded(cfg: Config, before: Buckets, key: string, now: real, answer: Answer, after: Buckets)
    requires Enabled(cfg) && cfg.maxKeys >= 1 && key != ""
    requires Bounded(cfg, before) && Allows(cfg, before, key, now, answer, after)
    ensures Bounded(cfg, after)
  {
    var kept :| MadeRoom(cfg, before, key, kept, now) && after == kept[key := Spend(Entry(cfg, before, key, now))];
    if key in before {
      RefillInRange(cfg, before[key], now);
    } else {
      SweepMakesRoom(cfg, before, kept, now);
    }
  }

  /** Whatever the clock does, a run over non-empty keys never holds more than
    maxKeys buckets, and every bucket holds between 0 and burst tokens. */
  lemma {:induction false} MemoryIsBounded(cfg: Config, run: seq<Turn>, i: nat)
    requires Enabled(cfg) && cfg.maxKeys >= 1 && IsRun(cfg, run) && i <= |run|
    requires forall j :: 0 <= j < |run| ==> run[j].key != ""
    ensures Bounded(cfg, Before(run, i))
  {
    hide Allows;
    if i > 0 {
      MemoryIsBounded(cfg, run, i - 1);
      var turn := run[i - 1];
      AllowKeepsBounded(cfg, Before(run, i - 1), turn.key, turn.now, turn.answer, turn.after);
    }
  }

  /** A call forgets another key's bucket only if it was idle, or if the map was
    full of live buckets and none had been seen longer ago; and it forgets at
    most one that was not idle. */
  lemma ForgetsOnlyIdleOrStalest(cfg: Config, before: Buckets, key: string, now: real, answer: Answer, after: Buckets, gone: string)
    requires Enabled(cfg) && Allows(cfg, before, key, now, answer, after)
    requires gone in before && gone !in after
    ensures key !in before
    ensures now - before[gone].seen > cfg.idle ||
            (|Live(cfg, before, now)| >= cfg.maxKeys &&
             forall k :: k in before && now - before[k].seen <= cfg.idle ==> before[gone].seen <= before[k].seen)
    ensures forall other ::
              other in before && other !in after && now - before[other].seen <= cfg.idle && now - before[gone].seen <= cfg.idle
              ==> other == gone
  {
    hide Refill, Earned;
    var live := Live(cfg, before, now);
    assert forall k :: k in live <==> k in before && now - before[k].seen <= cfg.idle;
    assert forall k :: k in live ==> live[k] == before[k];
  }

  /** A call that finds no bucket leaves no idle one behind. */
  lemma IdleIsForgotten(cfg: Config, before: Buckets, key: string, now: real, answer: Answer, after: Buckets, k: string)
    requires Enabled(cfg) && Allows(cfg, before, key, now, answer, after)
    requires key !in before && k in after && k != key
    ensures k in before && after[k] == before[k] && now - before[k].seen <= cfg.idle
  {
  }

  // ------------------------------------------- the limiter that never forgets

  function Remember(cfg: Config, all: Buckets, key: string, now: real): Buckets {
    all[key := Spend(Entry(cfg, all, key, now))]
  }

  /** Its buckets after the first `i` calls. */
  function Memory(cfg: Config, run: seq<Turn>, i: nat): Buckets
    requires i <= |run|
  {
    if i == 0 then map[] else Remember(cfg, Memory(cfg, run, i - 1), run[i - 1].key, run[i - 1].now)
  }

  /** Its answer to call `i`. */
  function Unforgetting(cfg: Config, run: seq<Turn>, i: nat): Answer
    requires i < |run| && cfg.rate > 0.0
  {
    AnswerFor(cfg, Entry(cfg, Memory(cfg, run, i), run[i].key, run[i].now))
  }

  /** What is held is held as remembered. */
  ghost predicate HeldAsRemembered(held: Buckets, all: Buckets) {
    forall k :: k in held ==> k in all && held[k] == all[k]
  }

  lemma StepKeepsHeld(cfg: Config, held: Buckets, all: Buckets, key: string, now: real, answer: Answer, after: Buckets)
    requires Enabled(cfg) && HeldAsRemembered(held, all) && Allows(cfg, held, key, now, answer, after)
    requires Entry(cfg, held, key, now) == Entry(cfg, all, key, now)
    ensures HeldAsRemembered(after, Remember(cfg, all, key, now))
  {
    hide Refill;
    var kept :| MadeRoom(cfg, held, key, kept, now) && after == kept[key := Spend(Entry(cfg, held, key, now))];
  }

  /** Call `i` draws on the bucket it would draw on had nothing been forgotten. */
  ghost predicate DrawsAlike(cfg: Config, run: seq<Turn>, i: nat)
    requires i < |run|
  {
    Entry(cfg, Before(run, i), run[i].key, run[i].now) == Entry(cfg, Memory(cfg, run, i), run[i].key, run[i].now)
  }

  /** Call `i` does not come back to a forgotten bucket before it has filled. */
  ghost predicate ReturnsFull(cfg: Config, run: seq<Turn>, i: nat)
    requires i < |run|
  {
    run[i].key in Memory(cfg, run, i) && run[i].key !in Before(run, i) ==>
      Refill(cfg, Memory(cfg, run, i)[run[i].key], run[i].now).tokens == cfg.burst
  }

  lemma {:induction false} FullReturnsKeepHeld(cfg: Config, run: seq<Turn>, i: nat)
    requires Enabled(cfg) && IsRun(cfg, run) && i <= |run|
    requires forall k :: 0 <= k < i ==> ReturnsFull(cfg, run, k)
    ensures HeldAsRemembered(Before(run, i), Memory(cfg, run, i))
  {
    hide Allows, Refill;
    if i > 0 {
      FullReturnsKeepHeld(cfg, run, i - 1);
      var turn := run[i - 1];
      assert ReturnsFull(cfg, run, i - 1);
      RefillReads(cfg, Memory(cfg, run, i - 1), turn.key, turn.now);
      StepKeepsHeld(cfg, Before(run, i - 1), Memory(cfg, run, i - 1), turn.key, turn.now, turn.answer, turn.after);
    }
  }

  lemma RefillReads(cfg: Config, all: Buckets, key: string, now: real)
    ensures key in all ==> Refill(cfg, all[key], now).seen == now
  {
  }

  /** On every run, whatever its readings and however many buckets were evicted:
    all its calls draw on the buckets of the limiter that never forgets, and so
    are answered as by it, exactly when none comes back to a forgotten bucket
    before that bucket has filled. */
  lemma ForgettingIsHarmlessExactlyWhen(cfg: Config, run: seq<Turn>)
    requires Enabled(cfg) && IsRun(cfg, run)
    ensures (forall i :: 0 <= i < |run| ==> DrawsAlike(cfg, run, i)) <==>
            (forall i :: 0 <= i < |run| ==> ReturnsFull(cfg, run, i))
    ensures forall i :: 0 <= i < |run| && DrawsAlike(cfg, run, i) ==> run[i].answer == Unforgetting(cfg, run, i)
  {
    forall i | 0 <= i < |run|
      ensures DrawsAlike(cfg, run, i) ==> ReturnsFull(cfg, run, i) && run[i].answer == Unforgetting(cfg, run, i)
    {
      assert Allows(cfg, Before(run, i), run[i].key, run[i].now, run[i].answer, run[i].after);
    }
    if forall i :: 0 <= i < |run| ==> ReturnsFull(cfg, run, i) {
      hide Allows, Refill;
      forall i | 0 <= i < |run|
        ensures DrawsAlike(cfg, run, i)
      {
        FullReturnsKeepHeld(cfg, run, i);
        assert ReturnsFull(cfg, run, i);
        RefillReads(cfg, Memory(cfg, run, i), run[i].key, run[i].now);
      }
    }
  }

  /** A bucket idle for longer than it takes to fill is full. */
  lemma IdleIsFull(cfg: Config, b: Bucket, now: real)
    requires Enabled(cfg) && cfg.idle >= 0.0 && cfg.burst <= Earned(cfg, cfg.idle)
    requires b.tokens >= 0.0 && now - b.seen > cfg.idle
    ensures Refill(cfg, b, now) == Bucket(cfg.burst, now)
  {
    hide Earned;
    EarnedIsLinear(cfg, cfg.idle, now - b.seen);
    EarnedIsLinear(cfg, 0.0, cfg.idle);
  }

  ghost predicate InRange(cfg: Config, buckets: Buckets) {
    forall k :: k in buckets ==> 0.0 <= buckets[k].tokens <= cfg.burst
  }

  lemma EntryInRange(cfg: Config, buckets: Buckets, key: string, now: real)
    requires Enabled(cfg) && InRange(cfg, buckets)
    ensures 0.0 <= Entry(cfg, buckets, key, now).tokens <= cfg.burst
  {
    if key in buckets {
      RefillInRange(cfg, buckets[key], now);
    }
  }

  /** Some call before turn `i` had a reading that found `seen` idle. */
  ghost predicate IdleBy(cfg: Config, run: seq<Turn>, i: nat, seen: real)
    requires i <= |run|
  {
    exists m :: 0 <= m < i && run[m].now - seen > cfg.idle
  }

  ghost predicate Forgot(cfg: Config, run: seq<Turn>, i: nat)
    requires i <= |run|
  {
    var held, all := Before(run, i), Memory(cfg, run, i);
    && HeldAsRemembered(held, all)
    && InRange(cfg, all)
    && (forall k :: k in all && k !in held ==> IdleBy(cfg, run, i, all[k].seen))
  }

  lemma IdleReturnsFull(cfg: Config, run: seq<Turn>, i: nat)
    requires Enabled(cfg) && cfg.idle >= 0.0 && cfg.burst <= Earned(cfg, cfg.idle)
    requires i < |run| && ReturnsInOrder(run) && Forgot(cfg, run, i)
    ensures ReturnsFull(cfg, run, i)
  {
    hide Earned, Refill;
    var key, all := run[i].key, Memory(cfg, run, i);
    if key in all && key !in Before(run, i) {
      var m :| 0 <= m < i && run[m].now - all[key].seen > cfg.idle;
      assert run[m].now <= run[i].now;
      IdleIsFull(cfg, all[key], run[i].now);
    }
  }

  lemma DropsOnlyIdle(cfg: Config, held: Buckets, key: string, now: real, answer: Answer, after: Buckets)
    requires Enabled(cfg) && Allows(cfg, held, key, now, answer, after) && (key in held || !Pressed(cfg, held, now))
    ensures key in after
    ensures forall k :: k in held && k !in after ==> IsIdle(cfg, held[k], now)
  {
    hide Refill;
    var kept :| MadeRoom(cfg, held, key, kept, now) && after == kept[key := Spend(Entry(cfg, held, key, now))];
  }

  lemma {:induction false} Simulates(cfg: Config, run: seq<Turn>, i: nat)
    requires Enabled(cfg) && cfg.idle >= 0.0 && cfg.burst <= Earned(cfg, cfg.idle)
    requires IsRun(cfg, run) && ReturnsInOrder(run) && NoPressure(cfg, run) && i <= |run|
    ensures Forgot(cfg, run, i)
  {
    if i > 0 {
      Simulates(cfg, run, i - 1);
      IdleReturnsFull(cfg, run, i - 1);
      SimulatesOne(cfg, run, i - 1);
    }
  }

  lemma SimulatesOne(cfg: Config, run: seq<Turn>, i: nat)
    requires Enabled(cfg) && IsRun(cfg, run) && NoPressure(cfg, run) && i < |run|
    requires Forgot(cfg, run, i) && ReturnsFull(cfg, run, i)
    ensures Forgot(cfg, run, i + 1)
  {
    hide Allows, Refill, Pressed;
    var turn, held, all := run[i], Before(run, i), Memory(cfg, run, i);
    RefillReads(cfg, all, turn.key, turn.now);
    EntryInRange(cfg, all, turn.key, turn.now);
    assert Allows(cfg, held, turn.key, turn.now, turn.answer, turn.after);
    StepKeepsHeld(cfg, held, all, turn.key, turn.now, turn.answer, turn.after);
    DropsOnlyIdle(cfg, held, turn.key, turn.now, turn.answer, turn.after);
    var next := Memory(cfg, run, i + 1);
    forall k | k in next && k !in turn.after
      ensures IdleBy(cfg, run, i + 1, next[k].seen)
    {
      if k in held {
        assert run[i].now - next[k].seen > cfg.idle;
      } else {
        var m :| 0 <= m < i && run[m].now - all[k].seen > cfg.idle;
        assert m < i + 1 && run[m].now - next[k].seen > cfg.idle;
      }
    }
  }

  /** If a bucket fills within the idle time and nothing is evicted, forgetting is
    invisible as soon as calls that find no bucket come in order: every answer,
    the waits included, is that of a limiter that keeps every bucket for ever. */
  lemma ForgettingIsInvisible(cfg: Config, run: seq<Turn>, i: nat)
    requires Enabled(cfg) && cfg.idle >= 0.0 && cfg.burst <= Earned(cfg, cfg.idle)
    requires IsRun(cfg, run) && ReturnsInOrder(run) && NoPressure(cfg, run) && i < |run|
    ensures run[i].answer == Unforgetting(cfg, run, i)
  {
    hide Earned, Forgot, DrawsAlike, ReturnsFull, Unforgetting;
    forall k | 0 <= k < |run|
      ensures ReturnsFull(cfg, run, k)
    {
      Simulates(cfg, run, k);
      IdleReturnsFull(cfg, run, k);
    }
    ForgettingIsHarmlessExactlyWhen(cfg, run);
  }

  // ------------------------------------------------ admissions in a window

  /** How many calls on `key` among turns i .. j - 1 were admitted. */
  function Admitted(run: seq<Turn>, key: string, i: nat, j: nat): nat
    requires i <= j <= |run|
    decreases j
  {
    if i == j then 0
    else Admitted(run, key, i, j - 1) + (if run[j - 1].key == key && run[j - 1].answer.ok then 1 else 0)
  }

  /** The last reading of `key` among turns i .. j - 1, where turn `i` has one. */
  function LastReading(run: seq<Turn>, key: string, i: nat, j: nat): real
    requires i < j <= |run|
    decreases j
  {
    if j == i + 1 || run[j - 1].key == key then run[j - 1].now else LastReading(run, key, i, j - 1)
  }

  /** By how much the readings of `key` went back, all its steps back among turns
    i .. j - 1 together. */
  function Setbacks(run: seq<Turn>, key: string, i: nat, j: nat): (total: real)
    requires i < j <= |run|
    ensures total >= 0.0
    decreases j
  {
    if j == i + 1 then 0.0
    else
      var step := if run[j - 1].key == key then LastReading(run, key, i, j - 1) - run[j - 1].now else 0.0;
      Setbacks(run, key, i, j - 1) + (if step > 0.0 then step else 0.0)
  }

  /** One turn from the buckets it is answered from to those it leaves. */
  ghost predicate AnswersTo(cfg: Config, turn: Turn, before: Buckets, after: Buckets)
    requires Enabled(cfg)
  {
    var entry := Entry(cfg, before, turn.key, turn.now);
    && turn.answer == AnswerFor(cfg, entry)
    && turn.key in after && after[turn.key] == Spend(entry)
    && forall other :: other in after && other != turn.key ==> other in before && after[other] == before[other]
  }

  ghost predicate AnsweredAt(cfg: Config, run: seq<Turn>, books: seq<Buckets>, k: nat)
    requires Enabled(cfg) && k < |run| < |books|
  {
    AnswersTo(cfg, run[k], books[k], books[k + 1])
  }

  /** The buckets a run is answered from: before each turn, and after the last. */
  ghost predicate AnsweredFrom(cfg: Config, run: seq<Turn>, books: seq<Buckets>)
    requires Enabled(cfg)
  {
    && |books| == |run| + 1
    && InRange(cfg, books[0])
    && forall k {:trigger AnsweredAt(cfg, run, books, k)} :: 0 <= k < |run| ==> AnsweredAt(cfg, run, books, k)
  }

  /** How many calls on `key` among turns i + 1 .. j - 1 found no bucket. */
  function FreshStarts(run: seq<Turn>, books: seq<Buckets>, key: string, i: nat, j: nat): nat
    requires i < j <= |run| < |books|
    decreases j
  {
    if j == i + 1 then 0
    else FreshStarts(run, books, key, i, j - 1) + (if run[j - 1].key == key && key !in books[j - 1] then 1 else 0)
  }

  /** The tokens of `n` full buckets. */
  function Bursts(cfg: Config, n: nat): real {
    if n == 0 then 0.0 else Bursts(cfg, n - 1) + cfg.burst
  }

  lemma TurnKeepsRange(cfg: Config, turn: Turn, before: Buckets, after: Buckets)
    requires Enabled(cfg) && InRange(cfg, before) && AnswersTo(cfg, turn, before, after)
    ensures InRange(cfg, after)
  {
    hide Entry;
    EntryInRange(cfg, before, turn.key, turn.now);
  }

  lemma {:induction false} BooksInRange(cfg: Config, run: seq<Turn>, books: seq<Buckets>, k: nat)
    requires Enabled(cfg) && AnsweredFrom(cfg, run, books) && k <= |run|
    ensures InRange(cfg, books[k])
  {
    hide AnswersTo, InRange;
    if k > 0 {
      BooksInRange(cfg, run, books, k - 1);
      assert AnsweredAt(cfg, run, books, k - 1);
      TurnKeepsRange(cfg, run[k - 1], books[k - 1], books[k]);
    }
  }

  /** What a call finds is what its bucket held and what the clock has moved it
    forward; a reading from the past earns nothing. */
  lemma FindsAtMost(cfg: Config, b: Bucket, now: real)
    requires Enabled(cfg)
    ensures Refill(cfg, b, now).tokens <= b.tokens + (if now > b.seen then Earned(cfg, now - b.seen) else 0.0)
  {
  }

  /** After turn j - 1: what `key` was admitted and what its bucket still holds
    are covered by the full buckets it was given and by the time it moved on. */
  ghost predicate Covered(cfg: Config, run: seq<Turn>, books: seq<Buckets>, key: string, i: nat, j: nat)
    requires i < j <= |run| < |books|
  {
    && (key in books[j] ==> books[j][key].seen == LastReading(run, key, i, j))
    && Admitted(run, key, i, j) as real + (if key in books[j] then books[j][key].tokens else 0.0) <=
         Bursts(cfg, 1 + FreshStarts(run, books, key, i, j)) +
         Earned(cfg, LastReading(run, key, i, j) - run[i].now + Setbacks(run, key, i, j))
  }

  lemma CoveredFirst(cfg: Config, run: seq<Turn>, books: seq<Buckets>, key: string, i: nat)
    requires Enabled(cfg) && AnsweredFrom(cfg, run, books) && i < |run| && run[i].key == key
    ensures Covered(cfg, run, books, key, i, i + 1)
  {
    hide Refill, Earned;
    BooksInRange(cfg, run, books, i);
    EntryInRange(cfg, books[i], key, run[i].now);
    assert AnsweredAt(cfg, run, books, i);
    TurnCovers(cfg, run[i], books[i], books[i + 1]);
    EarnedIsLinear(cfg, 0.0, 0.0);
    assert Admitted(run, key, i, i) == 0 && Bursts(cfg, 0) == 0.0;
  }

  /** What one turn admits and leaves for its key. */
  lemma TurnCovers(cfg: Config, turn: Turn, before: Buckets, after: Buckets)
    requires Enabled(cfg) && AnswersTo(cfg, turn, before, after)
    ensures turn.key in after && after[turn.key].seen == turn.now
    ensures after[turn.key].tokens + (if turn.answer.ok then 1.0 else 0.0) ==
            Entry(cfg, before, turn.key, turn.now).tokens
    ensures turn.key !in before ==> Entry(cfg, before, turn.key, turn.now).tokens == cfg.burst
  {
    hide Earned;
  }

  lemma CoveredNext(cfg: Config, run: seq<Turn>, books: seq<Buckets>, key: string, i: nat, j: nat)
    requires Enabled(cfg) && AnsweredFrom(cfg, run, books) && i < j < |run|
    requires Covered(cfg, run, books, key, i, j)
    ensures Covered(cfg, run, books, key, i, j + 1)
  {
    BooksInRange(cfg, run, books, j);
    assert AnsweredAt(cfg, run, books, j);
    var last, now := LastReading(run, key, i, j), run[j].now;
    var before := last - run[i].now + Setbacks(run, key, i, j);
    if run[j].key == key {
      TurnCovers(cfg, run[j], books[j], books[j + 1]);
      var forward := if now > last then now - last else 0.0;
      EarnedIsLinear(cfg, before, before + forward);
      EarnedIsLinear(cfg, 0.0, forward);
      BurstsGrow(cfg, 1 + FreshStarts(run, books, key, i, j));
      if key in books[j] {
        FindsAtMost(cfg, books[j][key], now);
      }
      hide Refill, Earned, Bursts, Spend, AnswerFor, AnswersTo, AnsweredFrom, Setbacks;
    }
  }

  lemma BurstsGrow(cfg: Config, n: nat)
    ensures Bursts(cfg, n + 1) == Bursts(cfg, n) + cfg.burst
  {
  }

  lemma {:induction false} CoveredThroughout(cfg: Config, run: seq<Turn>, books: seq<Buckets>, key: string, i: nat, j: nat)
    requires Enabled(cfg) && AnsweredFrom(cfg, run, books) && i < j <= |run| && run[i].key == key
    ensures Covered(cfg, run, books, key, i, j)
    decreases j
  {
    hide AnsweredFrom, Covered;
    if j == i + 1 {
      CoveredFirst(cfg, run, books, key, i);
    } else {
      CoveredThroughout(cfg, run, books, key, i, j - 1);
      CoveredNext(cfg, run, books, key, i, j - 1);
    }
  }

  lemma CoveredMeans(cfg: Config, run: seq<Turn>, books: seq<Buckets>, key: string, i: nat, j: nat)
    requires Enabled(cfg) && AnsweredFrom(cfg, run, books) && i < j <= |run| && Covered(cfg, run, books, key, i, j)
    ensures Admitted(run, key, i, j) as real <=
              Bursts(cfg, 1 + FreshStarts(run, books, key, i, j)) +
              Earned(cfg, LastReading(run, key, i, j) - run[i].now + Setbacks(run, key, i, j))
  {
    hide Earned, Bursts, AnsweredFrom, Admitted, FreshStarts, LastReading, Setbacks;
    BooksInRange(cfg, run, books, j);
  }

  /** The buckets the limiter itself holds. */
  ghost function Holdings(run: seq<Turn>): (books: seq<Buckets>)
    ensures |books| == |run| + 1
  {
    seq(|run| + 1, k requires 0 <= k <= |run| => Before(run, k))
  }

  lemma AllowedAnswers(cfg: Config, before: Buckets, turn: Turn)
    requires Enabled(cfg) && Allows(cfg, before, turn.key, turn.now, turn.answer, turn.after)
    ensures AnswersTo(cfg, turn, before, turn.after)
  {
    hide Refill;
  }

  lemma RunIsAnsweredFromHeld(cfg: Config, run: seq<Turn>)
    requires Enabled(cfg) && IsRun(cfg, run)
    ensures AnsweredFrom(cfg, run, Holdings(run))
  {
    var books := Holdings(run);
    forall k {:trigger AnsweredAt(cfg, run, books, k)} | 0 <= k < |run|
      ensures AnsweredAt(cfg, run, books, k)
    {
      assert books[k] == Before(run, k) && books[k + 1] == run[k].after;
      AllowedAnswers(cfg, Before(run, k), run[k]);
    }
  }

  /** For every run, whatever its readings, evictions and settings: from one call
    of a key to another, it is admitted at most one full bucket, another for each
    time its bucket had been forgotten in between, and the rate times the time
    its readings moved on, every step back counted again. */
  lemma AnyClockWindowBound(cfg: Config, run: seq<Turn>, key: string, i: nat, j: nat)
    requires Enabled(cfg) && IsRun(cfg, run) && i <= j < |run| && run[i].key == key && run[j].key == key
    ensures Admitted(run, key, i, j + 1) as real <=
              Bursts(cfg, 1 + FreshStarts(run, Holdings(run), key, i, j + 1)) +
              Earned(cfg, run[j].now - run[i].now + Setbacks(run, key, i, j + 1))
  {
    hide AnsweredFrom, Covered, Earned, Bursts, Holdings;
    RunIsAnsweredFromHeld(cfg, run);
    CoveredThroughout(cfg, run, Holdings(run), key, i, j + 1);
    CoveredMeans(cfg, run, Holdings(run), key, i, j + 1);
  }

  ghost function Memories(cfg: Config, run: seq<Turn>): (books: seq<Buckets>)
    ensures |books| == |run| + 1
  {
    seq(|run| + 1, k requires 0 <= k <= |run| => Memory(cfg, run, k))
  }

  lemma AnsweredFromMemory(cfg: Config, run: seq<Turn>)
    requires Enabled(cfg)
    requires forall k {:trigger Unforgetting(cfg, run, k)} :: 0 <= k < |run| ==> run[k].answer == Unforgetting(cfg, run, k)
    ensures AnsweredFrom(cfg, run, Memories(cfg, run))
  {
    hide Entry;
    var books := Memories(cfg, run);
    forall k {:trigger AnsweredAt(cfg, run, books, k)} | 0 <= k < |run|
      ensures AnsweredAt(cfg, run, books, k)
    {
      assert run[k].answer == Unforgetting(cfg, run, k);
      assert books[k] == Memory(cfg, run, k);
      assert books[k + 1] == Remember(cfg, Memory(cfg, run, k), run[k].key, run[k].now);
    }
  }

  lemma {:induction false} NeverForgotten(cfg: Config, run: seq<Turn>, key: string, i: nat, j: nat)
    requires i < j <= |run| && run[i].key == key
    ensures key in Memory(cfg, run, j) && FreshStarts(run, Memories(cfg, run), key, i, j) == 0
    decreases j
  {
    hide Entry;
    if j > i + 1 {
      NeverForgotten(cfg, run, key, i, j - 1);
      assert Memories(cfg, run)[j - 1] == Memory(cfg, run, j - 1);
    }
  }

  /** If a bucket fills within the idle time, nothing is evicted and calls that
    find no bucket come in order, one full bucket is all a key gets in advance,
    whatever the order of its other calls. */
  lemma OverlappingWindowBound(cfg: Config, run: seq<Turn>, key: string, i: nat, j: nat)
    requires Enabled(cfg) && cfg.idle >= 0.0 && cfg.burst <= Earned(cfg, cfg.idle)
    requires IsRun(cfg, run) && ReturnsInOrder(run) && NoPressure(cfg, run)
    requires i <= j < |run| && run[i].key == key && run[j].key == key
    ensures Admitted(run, key, i, j + 1) as real <=
              cfg.burst + Earned(cfg, run[j].now - run[i].now + Setbacks(run, key, i, j + 1))
  {
    hide IsRun, ReturnsInOrder, NoPressure, Unforgetting, AnsweredFrom, Covered, Earned, Memories, Memory;
    forall k {:trigger Unforgetting(cfg, run, k)} | 0 <= k < |run|
      ensures run[k].answer == Unforgetting(cfg, run, k)
    {
      ForgettingIsInvisible(cfg, run, k);
    }
    AnsweredFromMemory(cfg, run);
    CoveredThroughout(cfg, run, Memories(cfg, run), key, i, j + 1);
    CoveredMeans(cfg, run, Memories(cfg, run), key, i, j + 1);
    NeverForgotten(cfg, run, key, i, j + 1);
    assert Bursts(cfg, 1) == cfg.burst;
  }

  lemma {:induction false} NoSetbacks(run: seq<Turn>, key: string, i: nat, j: nat)
    requires ClockAdvances(run) && i < j <= |run|
    ensures Setbacks(run, key, i, j) == 0.0 && LastReading(run, key, i, j) <= run[j - 1].now
    decreases j
  {
    if j > i + 1 {
      NoSetbacks(run, key, i, j - 1);
    }
  }

  /** The first and the last call of `key` among turns i .. j - 1, if it has any. */
  lemma {:induction false} KeyWindow(run: seq<Turn>, key: string, i: nat, j: nat) returns (first: nat, last: nat)
    requires i <= j <= |run| && Admitted(run, key, i, j) > 0
    ensures i <= first <= last < j && run[first].key == key && run[last].key == key
    ensures Admitted(run, key, first, last + 1) == Admitted(run, key, i, j)
    decreases j
  {
    if Admitted(run, key, i, j - 1) == 0 {
      first, last := j - 1, j - 1;
      assert Admitted(run, key, j - 1, j - 1) == 0;
    } else {
      first, last := KeyWindow(run, key, i, j - 1);
      if run[j - 1].key == key {
        NoneOutside(run, key, i, first, last, j - 1);
        last := j - 1;
      }
    }
  }

  lemma {:induction false} AdmittedJoins(run: seq<Turn>, key: string, i: nat, m: nat, j: nat)
    requires i <= m <= j <= |run|
    ensures Admitted(run, key, i, j) == Admitted(run, key, i, m) + Admitted(run, key, m, j)
    decreases j
  {
    if m < j {
      AdmittedJoins(run, key, i, m, j - 1);
    }
  }

  lemma NoneOutside(run: seq<Turn>, key: string, i: nat, first: nat, last: nat, j: nat)
    requires i <= first <= last < j <= |run| && Admitted(run, key, first, last + 1) == Admitted(run, key, i, j)
    ensures Admitted(run, key, first, j) == Admitted(run, key, i, j)
  {
    AdmittedJoins(run, key, i, first, j);
    AdmittedJoins(run, key, first, last + 1, j);
  }

  /** With readings in the order of service, the calls on one key admitted from
    turn `i` to turn `j` inclusive number at most burst + rate * elapsed, however
    calls on other keys are interleaved. */
  lemma WindowBound(cfg: Config, run: seq<Turn>, key: string, i: nat, j: nat)
    requires Enabled(cfg) && cfg.idle >= 0.0 && cfg.burst <= Earned(cfg, cfg.idle)
    requires IsRun(cfg, run) && ClockAdvances(run) && NoPressure(cfg, run)
    requires i <= j < |run|
    ensures Admitted(run, key, i, j + 1) as real <= cfg.burst + Earned(cfg, run[j].now - run[i].now)
  {
    hide Earned;
    if Admitted(run, key, i, j + 1) == 0 {
      EarnedIsLinear(cfg, 0.0, run[j].now - run[i].now);
    } else {
      var first, last := KeyWindow(run, key, i, j + 1);
      OverlappingWindowBound(cfg, run, key, first, last);
      NoSetbacks(run, key, first, last + 1);
      EarnedIsLinear(cfg, run[last].now - run[first].now, run[j].now - run[i].now);
    }
  }

  /** The wait told to a refused caller is enough whatever else happens to other
    keys or to its own bucket's place in the map, and when it is more than the
    one-second floor nothing shorter is. */
  lemma WaitIsEnough(cfg: Config, before: Buckets, key: string, now: real, answer: Answer, after: Buckets, later: Buckets, t: real)
    requires Enabled(cfg) && cfg.burst >= 1.0
    requires key in before ==> 0.0 <= before[key].tokens <= cfg.burst
    requires Allows(cfg, before, key, now, answer, after) && !answer.ok && t > now
    requires key in later ==> later[key] == after[key]
    ensures t >= now + answer.wait ==> Entry(cfg, later, key, t).tokens >= 1.0
    ensures key in later && answer.wait > 1.0 && t < now + answer.wait ==> Entry(cfg, later, key, t).tokens < 1.0
  {
    hide Earned;
    var b := Entry(cfg, before, key, now);
    var need := (1.0 - b.tokens) / cfg.rate;
    WholeTokenAt(cfg, b, need);
    EarnedIsLinear(cfg, need, t - now);
    EarnedIsLinear(cfg, t - now, need);
    if key in later {
      assert later[key] == b;
    }
  }

  lemma WholeTokenAt(cfg: Config, b: Bucket, need: real)
    requires cfg.rate > 0.0 && need == (1.0 - b.tokens) / cfg.rate
    ensures Earned(cfg, need) == 1.0 - b.tokens
  {
  }
}
