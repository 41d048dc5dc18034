/** Exactly which calls the limiter admits, said without its buckets.

  While a key's bucket is held, a call is admitted if and only if, counted from
  every earlier call of the key since the bucket was made, those admitted and
  this one together fit in one burst and the rate times the time the readings
  have moved on. */
module RateLimitEntitlements {
  import opened RateLimits
  import opened RateLimitRuns

  /** The bucket of `key` was made by turn `i` and is held up to turn `j`. */
  ghost predicate HeldFrom(run: seq<Turn>, key: string, i: nat, j: nat)
    requires i < |run| && j <= |run|
  {
    && run[i].key == key && key !in Before(run, i)
    && forall k :: i < k <= j ==> key in Before(run, k)
  }

  /** How far the readings of `key` have moved on among turns i .. j - 1. */
  function Forward(run: seq<Turn>, key: string, i: nat, j: nat): real
    requires i < j <= |run|
  {
    LastReading(run, key, i, j) - run[i].now + Setbacks(run, key, i, j)
  }

  /** What turn `m` leaves to those up to `j`: a burst and the earnings since,
    less what has been admitted since. */
  function Allotment(cfg: Config, run: seq<Turn>, key: string, i: nat, m: nat, j: nat, upto: nat): real
    requires i <= m <= j <= |run| && i < upto <= |run| && m < |run|
  {
    cfg.burst + Earned(cfg, Forward(run, key, i, upto) - Forward(run, key, i, m + 1)) - Admitted(run, key, m, j) as real
  }

  /** `tokens` is the smallest allotment any turn of the key leaves. */
  ghost predicate IsLeast(cfg: Config, run: seq<Turn>, key: string, i: nat, last: nat, j: nat, upto: nat, tokens: real)
    requires i <= last <= j <= |run| && last < upto <= |run|
  {
    && (forall m :: i <= m <= last && run[m].key == key ==> tokens <= Allotment(cfg, run, key, i, m, j, upto))
    && (exists m :: i <= m <= last && run[m].key == key && tokens == Allotment(cfg, run, key, i, m, j, upto))
  }

  ghost predicate Tells(cfg: Config, run: seq<Turn>, key: string, i: nat, j: nat)
    requires i < j <= |run|
  {
    && key in Before(run, j) && Before(run, j)[key].seen == LastReading(run, key, i, j)
    && IsLeast(cfg, run, key, i, j - 1, j, j, Before(run, j)[key].tokens)
  }

  lemma AllotmentMoves(cfg: Config, run: seq<Turn>, key: string, i: nat, m: nat, j: nat, forward: real)
    requires Enabled(cfg) && i <= m < j < |run|
    requires Forward(run, key, i, j + 1) == Forward(run, key, i, j) + forward
    ensures Allotment(cfg, run, key, i, m, j, j + 1) == Allotment(cfg, run, key, i, m, j, j) + Earned(cfg, forward)
  {
    hide Earned, Forward;
    var since := Forward(run, key, i, j) - Forward(run, key, i, m + 1);
    EarnedIsLinear(cfg, since, since + forward);
  }

  /** A turn of the key moves every allotment by the same earnings, and adds its
    own: a whole burst. */
  lemma AllotmentsMove(cfg: Config, run: seq<Turn>, key: string, i: nat, j: nat)
    requires Enabled(cfg) && i < j < |run| && run[j].key == key
    ensures var last := LastReading(run, key, i, j);
            var forward := if run[j].now > last then run[j].now - last else 0.0;
            && (forall m :: i <= m < j && run[m].key == key ==>
                  Allotment(cfg, run, key, i, m, j, j + 1) == Allotment(cfg, run, key, i, m, j, j) + Earned(cfg, forward))
            && Allotment(cfg, run, key, i, j, j, j + 1) == cfg.burst
  {
    var last := LastReading(run, key, i, j);
    var forward := if run[j].now > last then run[j].now - last else 0.0;
    assert Forward(run, key, i, j + 1) == Forward(run, key, i, j) + forward;
    AllotmentNow(cfg, run, key, i, j);
    hide Allotment, Earned, Forward, LastReading;
    forall m | i <= m < j && run[m].key == key
      ensures Allotment(cfg, run, key, i, m, j, j + 1) == Allotment(cfg, run, key, i, m, j, j) + Earned(cfg, forward)
    {
      AllotmentMoves(cfg, run, key, i, m, j, forward);
    }
  }

  lemma AllotmentNow(cfg: Config, run: seq<Turn>, key: string, i: nat, j: nat)
    requires Enabled(cfg) && i <= j < |run|
    ensures Allotment(cfg, run, key, i, j, j, j + 1) == cfg.burst
  {
    hide Earned, Forward;
    EarnedIsLinear(cfg, 0.0, 0.0);
    assert Admitted(run, key, j, j) == 0;
  }

  /** What the bucket becomes by the time of a later call. */
  lemma RefillIsLeast(cfg: Config, b: Bucket, now: real)
    requires Enabled(cfg) && b.tokens <= cfg.burst
    ensures var grown := b.tokens + Earned(cfg, if now > b.seen then now - b.seen else 0.0);
            Refill(cfg, b, now).tokens == if grown > cfg.burst then cfg.burst else grown
  {
    hide Earned;
    EarnedIsLinear(cfg, 0.0, 0.0);
  }

  /** What turn `j` finds in the bucket. */
  lemma FindsLeast(cfg: Config, run: seq<Turn>, key: string, i: nat, j: nat)
    requires Enabled(cfg) && i < j < |run| && run[j].key == key && Tells(cfg, run, key, i, j)
    requires InRange(cfg, Before(run, j))
    ensures IsLeast(cfg, run, key, i, j, j, j + 1, Entry(cfg, Before(run, j), key, run[j].now).tokens)
  {
    hide Allotment, Earned, Refill, Forward, LastReading;
    var b := Before(run, j)[key];
    AllotmentsMove(cfg, run, key, i, j);
    RefillIsLeast(cfg, b, run[j].now);
    var found := Refill(cfg, b, run[j].now).tokens;
    var m :| i <= m < j && run[m].key == key && b.tokens == Allotment(cfg, run, key, i, m, j, j);
    assert found == Allotment(cfg, run, key, i, m, j, j + 1) || found == Allotment(cfg, run, key, i, j, j, j + 1);
  }

  lemma FirstFindsLeast(cfg: Config, run: seq<Turn>, key: string, i: nat)
    requires Enabled(cfg) && i < |run| && run[i].key == key && key !in Before(run, i)
    ensures IsLeast(cfg, run, key, i, i, i, i + 1, Entry(cfg, Before(run, i), key, run[i].now).tokens)
  {
    AllotmentNow(cfg, run, key, i, i);
    hide Allotment;
  }

  /** Turn `j` takes its token, if it gets one, out of every allotment. */
  lemma SpendsLeast(cfg: Config, run: seq<Turn>, key: string, i: nat, j: nat)
    requires Enabled(cfg) && IsRun(cfg, run) && i <= j < |run| && run[j].key == key
    requires IsLeast(cfg, run, key, i, j, j, j + 1, Entry(cfg, Before(run, j), key, run[j].now).tokens)
    ensures Tells(cfg, run, key, i, j + 1)
  {
    AllowedAnswers(cfg, Before(run, j), run[j]);
    TurnCovers(cfg, run[j], Before(run, j), run[j].after);
    forall m | i <= m <= j && run[m].key == key
      ensures Allotment(cfg, run, key, i, m, j + 1, j + 1) ==
              Allotment(cfg, run, key, i, m, j, j + 1) - (if run[j].answer.ok then 1.0 else 0.0)
    {
      hide Earned, Forward;
    }
    hide Allotment, Entry, AnswersTo;
    var found := Entry(cfg, Before(run, j), key, run[j].now).tokens;
    var m :| i <= m <= j && run[m].key == key && found == Allotment(cfg, run, key, i, m, j, j + 1);
    assert run[j].after[key].tokens == Allotment(cfg, run, key, i, m, j + 1, j + 1);
  }

  lemma OtherTurnKeeps(cfg: Config, run: seq<Turn>, key: string, i: nat, m: nat, j: nat)
    requires i <= m < j < |run| && run[j].key != key
    ensures LastReading(run, key, i, j + 1) == LastReading(run, key, i, j)
    ensures Allotment(cfg, run, key, i, m, j + 1, j + 1) == Allotment(cfg, run, key, i, m, j, j)
  {
    hide Earned;
    assert Setbacks(run, key, i, j + 1) == Setbacks(run, key, i, j);
  }

  /** A turn of another key leaves them as they are. */
  lemma OtherTurnTells(cfg: Config, run: seq<Turn>, key: string, i: nat, j: nat)
    requires Enabled(cfg) && IsRun(cfg, run) && i < j < |run| && run[j].key != key
    requires Tells(cfg, run, key, i, j) && key in Before(run, j + 1)
    ensures Tells(cfg, run, key, i, j + 1)
  {
    AllowedAnswers(cfg, Before(run, j), run[j]);
    var tokens := Before(run, j)[key].tokens;
    assert Before(run, j + 1)[key] == Before(run, j)[key];
    hide IsLeast, Allotment, AnswersTo, Allows, IsRun, LastReading, Before;
    OtherTurnKeeps(cfg, run, key, i, i, j);
    LeastStays(cfg, run, key, i, j, tokens);
  }

  lemma LeastStays(cfg: Config, run: seq<Turn>, key: string, i: nat, j: nat, tokens: real)
    requires i < j < |run| && run[j].key != key && IsLeast(cfg, run, key, i, j - 1, j, j, tokens)
    ensures IsLeast(cfg, run, key, i, j, j + 1, j + 1, tokens)
  {
    hide Allotment, LastReading;
    forall m | i <= m < j && run[m].key == key
      ensures Allotment(cfg, run, key, i, m, j + 1, j + 1) == Allotment(cfg, run, key, i, m, j, j)
    {
      OtherTurnKeeps(cfg, run, key, i, m, j);
    }
    var m :| i <= m < j && run[m].key == key && tokens == Allotment(cfg, run, key, i, m, j, j);
    assert tokens == Allotment(cfg, run, key, i, m, j + 1, j + 1);
  }

  lemma RangeBefore(cfg: Config, run: seq<Turn>, j: nat)
    requires Enabled(cfg) && IsRun(cfg, run) && j <= |run|
    ensures InRange(cfg, Before(run, j))
  {
    hide InRange;
    RunIsAnsweredFromHeld(cfg, run);
    BooksInRange(cfg, run, Holdings(run), j);
  }

  lemma {:induction false} HeldTells(cfg: Config, run: seq<Turn>, key: string, i: nat, j: nat)
    requires Enabled(cfg) && IsRun(cfg, run) && i < j <= |run| && HeldFrom(run, key, i, j)
    ensures Tells(cfg, run, key, i, j)
    decreases j
  {
    hide IsRun, Tells, IsLeast, Entry;
    if j == i + 1 {
      FirstFindsLeast(cfg, run, key, i);
      SpendsLeast(cfg, run, key, i, i);
    } else {
      HeldTells(cfg, run, key, i, j - 1);
      if run[j - 1].key == key {
        RangeBefore(cfg, run, j - 1);
        FindsLeast(cfg, run, key, i, j - 1);
        SpendsLeast(cfg, run, key, i, j - 1);
      } else {
        OtherTurnTells(cfg, run, key, i, j - 1);
      }
    }
  }

  /** Counted from the first turn or from a later one of the key. */
  lemma {:induction false} ForwardSplits(run: seq<Turn>, key: string, i: nat, m: nat, j: nat)
    requires i <= m < j <= |run| && run[i].key == run[m].key == key
    ensures LastReading(run, key, i, j) == LastReading(run, key, m, j)
    ensures Setbacks(run, key, i, j) == Setbacks(run, key, i, m + 1) + Setbacks(run, key, m, j)
    ensures Forward(run, key, i, j) == Forward(run, key, i, m + 1) + Forward(run, key, m, j)
    decreases j
  {
    if j > m + 1 {
      ForwardSplits(run, key, i, m, j - 1);
    }
  }

  lemma AllotmentFrom(cfg: Config, run: seq<Turn>, key: string, i: nat, m: nat, j: nat)
    requires i <= m <= j < |run| && run[i].key == run[m].key == key
    ensures Allotment(cfg, run, key, i, m, j, j + 1) ==
            cfg.burst + Earned(cfg, Forward(run, key, m, j + 1)) - Admitted(run, key, m, j) as real
  {
    ForwardSplits(run, key, i, m, j + 1);
    hide Forward, Admitted, Earned;
    assert Forward(run, key, i, j + 1) - Forward(run, key, i, m + 1) == Forward(run, key, m, j + 1);
  }

  lemma LeastIsOne(cfg: Config, run: seq<Turn>, key: string, i: nat, j: nat, tokens: real)
    requires i <= j < |run| && run[i].key == key && IsLeast(cfg, run, key, i, j, j, j + 1, tokens)
    ensures tokens >= 1.0 <==>
              forall m :: i <= m <= j && run[m].key == key ==>
                Admitted(run, key, m, j) as real + 1.0 <= cfg.burst + Earned(cfg, Forward(run, key, m, j + 1))
  {
    hide Allotment, Admitted, Forward, Earned;
    forall m | i <= m <= j && run[m].key == key
      ensures Allotment(cfg, run, key, i, m, j, j + 1) ==
              cfg.burst + Earned(cfg, Forward(run, key, m, j + 1)) - Admitted(run, key, m, j) as real
    {
      AllotmentFrom(cfg, run, key, i, m, j);
    }
  }

  /** Where the bucket that is held before turn `j` was made. */
  lemma {:induction false} BucketBegins(cfg: Config, run: seq<Turn>, key: string, j: nat) returns (i: nat)
    requires Enabled(cfg) && IsRun(cfg, run) && j <= |run| && key in Before(run, j)
    ensures i < j && HeldFrom(run, key, i, j)
  {
    AllowedAnswers(cfg, Before(run, j - 1), run[j - 1]);
    if key in Before(run, j - 1) {
      i := BucketBegins(cfg, run, key, j - 1);
    } else {
      i := j - 1;
    }
  }

  /** What turn `j` finds, said of the bucket that the call `i` made. */
  lemma BucketFinds(cfg: Config, run: seq<Turn>, j: nat) returns (i: nat)
    requires Enabled(cfg) && IsRun(cfg, run) && j < |run|
    ensures i <= j && HeldFrom(run, run[j].key, i, j)
    ensures IsLeast(cfg, run, run[j].key, i, j, j, j + 1, Entry(cfg, Before(run, j), run[j].key, run[j].now).tokens)
  {
    hide IsRun, Entry, IsLeast, Tells;
    var key := run[j].key;
    if key in Before(run, j) {
      i := BucketBegins(cfg, run, key, j);
      HeldTells(cfg, run, key, i, j);
      RangeBefore(cfg, run, j);
      FindsLeast(cfg, run, key, i, j);
    } else {
      i := j;
      FirstFindsLeast(cfg, run, key, i);
    }
  }

  /** On every run, whatever its readings and evictions: call `j` is admitted if
    and only if from every call `m` of its key, since the call `i` that made the
    bucket, the calls admitted and this one are within one burst and the rate
    times the time its readings moved on.  Nobody is refused what it has earned,
    and nobody gets more. */
  lemma AdmittedExactlyWhen(cfg: Config, run: seq<Turn>, j: nat) returns (i: nat)
    requires Enabled(cfg) && IsRun(cfg, run) && j < |run|
    ensures i <= j && HeldFrom(run, run[j].key, i, j)
    ensures run[j].answer.ok <==>
              forall m :: i <= m <= j && run[m].key == run[j].key ==>
                Admitted(run, run[j].key, m, j) as real + 1.0 <= cfg.burst + Earned(cfg, Forward(run, run[j].key, m, j + 1))
  {
    i := BucketFinds(cfg, run, j);
    OkWhenFound(cfg, run, j);
    LeastIsOne(cfg, run, run[j].key, i, j, Entry(cfg, Before(run, j), run[j].key, run[j].now).tokens);
    hide *;
  }

  lemma OkWhenFound(cfg: Config, run: seq<Turn>, j: nat)
    requires Enabled(cfg) && IsRun(cfg, run) && j < |run|
    ensures run[j].answer.ok <==> Entry(cfg, Before(run, j), run[j].key, run[j].now).tokens >= 1.0
  {
    hide Entry;
    AllowedAnswers(cfg, Before(run, j), run[j]);
  }

  lemma {:induction false} RisingHasNoSetbacks(run: seq<Turn>, key: string, m: nat, j: nat)
    requires m < j <= |run| && run[m].key == key
    requires forall a, b :: m <= a < b < j && run[a].key == key && run[b].key == key ==> run[a].now <= run[b].now
    ensures Setbacks(run, key, m, j) == 0.0
    ensures exists a :: m <= a < j && run[a].key == key && LastReading(run, key, m, j) == run[a].now
    decreases j
  {
    if j > m + 1 {
      RisingHasNoSetbacks(run, key, m, j - 1);
    }
  }

  /** A caller whose readings rise is refused only when, since some earlier call of
    its own, it has been admitted a burst and what it earned, less a call. */
  lemma RefusedOnlyWhenSpent(cfg: Config, run: seq<Turn>, j: nat) returns (i: nat)
    requires Enabled(cfg) && IsRun(cfg, run) && j < |run|
    requires forall a, b :: 0 <= a < b <= j && run[a].key == run[b].key == run[j].key ==> run[a].now <= run[b].now
    ensures i <= j && HeldFrom(run, run[j].key, i, j)
    ensures !run[j].answer.ok <==>
              exists m :: i <= m <= j && run[m].key == run[j].key &&
                Admitted(run, run[j].key, m, j) as real + 1.0 > cfg.burst + Earned(cfg, run[j].now - run[m].now)
  {
    i := AdmittedExactlyWhen(cfg, run, j);
    var key := run[j].key;
    hide IsRun, HeldFrom, Admitted, Earned;
    forall m | i <= m <= j && run[m].key == key
      ensures Earned(cfg, Forward(run, key, m, j + 1)) == Earned(cfg, run[j].now - run[m].now)
    {
      RisingHasNoSetbacks(run, key, m, j + 1);
      assert Forward(run, key, m, j + 1) == run[j].now - run[m].now;
    }
  }
}
