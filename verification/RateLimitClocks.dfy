/** Calls of the limiter over a clock that never goes back.

  A call is two steps: it reads the clock, and later it is served under the mutex
  with that reading.  Between the two any number of other calls may be served, so
  a reading can arrive after a later one. */
module RateLimitClocks {
  import opened Wrappers
  import opened RateLimits
  import opened RateLimitRuns

  datatype Step =
    | Read(call: nat, key: string, at: real)
    | Serve(call: nat, at: real, answer: Answer, after: Buckets)

  datatype Waiting = Waiting(key: string, reading: real)

  /** `served[i]` is when turn `i` was served, by the same clock. */
  datatype World = World(clock: real, waiting: map<nat, Waiting>, turns: seq<Turn>, served: seq<real>)

  ghost predicate CanStep(cfg: Config, w: World, step: Step) {
    && w.clock <= step.at
    && match step
       case Read(call, _, _) => call !in w.waiting
       case Serve(call, _, answer, after) =>
         call in w.waiting &&
         Allows(cfg, Before(w.turns, |w.turns|), w.waiting[call].key, w.waiting[call].reading, answer, after)
  }

  ghost function Next(cfg: Config, w: World, step: Step): World
    requires CanStep(cfg, w, step)
  {
    match step
    case Read(call, key, at) => w.(clock := at, waiting := w.waiting[call := Waiting(key, at)])
    case Serve(call, at, answer, after) =>
      World(at, w.waiting - {call}, w.turns + [Turn(w.waiting[call].key, w.waiting[call].reading, answer, after)], w.served + [at])
  }

  ghost function After(cfg: Config, w: World, steps: seq<Step>): Option<World>
    decreases |steps|
  {
    if steps == [] then Some(w)
    else if CanStep(cfg, w, steps[0]) then After(cfg, Next(cfg, w, steps[0]), steps[1..])
    else None
  }

  function Start(clock: real): World {
    World(clock, map[], [], [])
  }

  ghost predicate Reachable(cfg: Config, w: World) {
    exists clock, steps :: After(cfg, Start(clock), steps) == Some(w)
  }

  // -------------------------------------------------- what the clock does give

  /** Every turn was served no earlier than it was read, and turns were served in
    order. */
  ghost predicate Timed(w: World) {
    && |w.served| == |w.turns|
    && (forall call :: call in w.waiting ==> w.waiting[call].reading <= w.clock)
    && (forall i :: 0 <= i < |w.turns| ==> w.turns[i].now <= w.served[i] <= w.clock)
    && (forall i, j :: 0 <= i < j < |w.served| ==> w.served[i] <= w.served[j])
  }

  lemma TurnAdded(cfg: Config, turns: seq<Turn>, turn: Turn)
    requires IsRun(cfg, turns)
    requires Allows(cfg, Before(turns, |turns|), turn.key, turn.now, turn.answer, turn.after)
    ensures IsRun(cfg, turns + [turn])
  {
    hide Allows;
    var more := turns + [turn];
    forall i {:trigger Before(more, i)} | 0 <= i < |more|
      ensures Before(more, i) == Before(turns, i)
      ensures Allows(cfg, Before(more, i), more[i].key, more[i].now, more[i].answer, more[i].after)
    {
      if i < |turns| {
        assert more[i] == turns[i];
      }
    }
  }

  lemma {:induction false} RunIsTimed(cfg: Config, w: World, steps: seq<Step>, v: World)
    requires IsRun(cfg, w.turns) && Timed(w) && After(cfg, w, steps) == Some(v)
    ensures IsRun(cfg, v.turns) && Timed(v)
    decreases |steps|
  {
    hide Allows, IsRun;
    if steps != [] {
      var u := Next(cfg, w, steps[0]);
      if steps[0].Serve? {
        TurnAdded(cfg, w.turns, u.turns[|w.turns|]);
      }
      RunIsTimed(cfg, u, steps[1..], v);
    }
  }

  /** The turns of overlapping calls are a run, and a reading is never later than
    its call is served. */
  lemma TurnsAreARun(cfg: Config, w: World)
    requires Reachable(cfg, w)
    ensures IsRun(cfg, w.turns) && Timed(w)
  {
    var clock, steps :| After(cfg, Start(clock), steps) == Some(w);
    RunIsTimed(cfg, Start(clock), steps, w);
  }

  /** How long the calls on `key` among turns i + 1 .. j - 1 stood between reading
    the clock and being served. */
  function Delays(w: World, key: string, i: nat, j: nat): real
    requires i < j <= |w.turns| == |w.served|
    decreases j
  {
    if j == i + 1 then 0.0
    else Delays(w, key, i, j - 1) + (if w.turns[j - 1].key == key then w.served[j - 1] - w.turns[j - 1].now else 0.0)
  }

  lemma {:induction false} LastReadingWasServed(w: World, key: string, i: nat, j: nat)
    requires Timed(w) && i < j <= |w.turns|
    ensures LastReading(w.turns, key, i, j) <= w.served[j - 1]
    decreases j
  {
    if j > i + 1 && w.turns[j - 1].key != key {
      LastReadingWasServed(w, key, i, j - 1);
    }
  }

  /** Readings of a key go back by no more than its calls waited for the mutex. */
  lemma {:induction false} SetbacksAreDelays(w: World, key: string, i: nat, j: nat)
    requires Timed(w) && i < j <= |w.turns|
    ensures Setbacks(w.turns, key, i, j) <= Delays(w, key, i, j)
    decreases j
  {
    if j > i + 1 {
      SetbacksAreDelays(w, key, i, j - 1);
      LastReadingWasServed(w, key, i, j - 1);
    }
  }

  /** Whatever overlaps: a key is admitted its full buckets, plus the rate times
    the time between its first and last reading and the time its calls waited. */
  lemma OverlapCostsItsDelays(cfg: Config, w: World, key: string, i: nat, j: nat)
    requires Enabled(cfg) && Reachable(cfg, w)
    requires i <= j < |w.turns| && w.turns[i].key == key && w.turns[j].key == key
    ensures |w.served| == |w.turns|
    ensures Admitted(w.turns, key, i, j + 1) as real <=
              Bursts(cfg, 1 + FreshStarts(w.turns, Holdings(w.turns), key, i, j + 1)) +
              Earned(cfg, w.turns[j].now - w.turns[i].now + Delays(w, key, i, j + 1))
  {
    hide Reachable, Earned, Bursts, Admitted, Setbacks, Delays, FreshStarts, Holdings;
    TurnsAreARun(cfg, w);
    AnyClockWindowBound(cfg, w.turns, key, i, j);
    SetbacksAreDelays(w, key, i, j + 1);
    EarnedIsLinear(cfg, w.turns[j].now - w.turns[i].now + Setbacks(w.turns, key, i, j + 1),
                   w.turns[j].now - w.turns[i].now + Delays(w, key, i, j + 1));
  }

  // ------------------------------------------------------ calls one at a time

  /** No call on a key reads the clock while another on that key waits. */
  ghost predicate OneAtATime(cfg: Config, w: World, steps: seq<Step>, key: string)
    decreases |steps|
  {
    steps == [] ||
    (CanStep(cfg, w, steps[0]) &&
     (steps[0].Read? && steps[0].key == key ==> forall call :: call in w.waiting ==> w.waiting[call].key != key) &&
     OneAtATime(cfg, Next(cfg, w, steps[0]), steps[1..], key))
  }

  ghost predicate KeyInOrder(turns: seq<Turn>, key: string) {
    forall i, j :: 0 <= i < j < |turns| && turns[i].key == key && turns[j].key == key ==> turns[i].now <= turns[j].now
  }

  ghost predicate KeyWaitsInOrder(w: World, key: string) {
    && KeyInOrder(w.turns, key)
    && (forall i, call :: 0 <= i < |w.turns| && w.turns[i].key == key && call in w.waiting && w.waiting[call].key == key ==>
          w.turns[i].now <= w.waiting[call].reading)
    && (forall a, b :: a in w.waiting && b in w.waiting && w.waiting[a].key == key && w.waiting[b].key == key ==> a == b)
  }

  lemma StepKeepsKeyInOrder(cfg: Config, w: World, step: Step, key: string)
    requires Timed(w) && KeyWaitsInOrder(w, key) && CanStep(cfg, w, step)
    requires step.Read? && step.key == key ==> forall call :: call in w.waiting ==> w.waiting[call].key != key
    ensures Timed(Next(cfg, w, step)) && KeyWaitsInOrder(Next(cfg, w, step), key)
  {
    hide Allows;
  }

  lemma {:induction false} OneAtATimeKeepsOrder(cfg: Config, w: World, steps: seq<Step>, v: World, key: string)
    requires Timed(w) && KeyWaitsInOrder(w, key) && OneAtATime(cfg, w, steps, key) && After(cfg, w, steps) == Some(v)
    ensures Timed(v) && KeyInOrder(v.turns, key)
    decreases |steps|
  {
    hide CanStep, Next, Timed;
    if steps != [] {
      StepKeepsKeyInOrder(cfg, w, steps[0], key);
      OneAtATimeKeepsOrder(cfg, Next(cfg, w, steps[0]), steps[1..], v, key);
    }
  }

  lemma {:induction false} OrderHasNoSetbacks(turns: seq<Turn>, key: string, i: nat, j: nat)
    requires KeyInOrder(turns, key) && i < j <= |turns| && turns[i].key == key
    ensures Setbacks(turns, key, i, j) == 0.0
    ensures exists k :: i <= k < j && turns[k].key == key && turns[k].now == LastReading(turns, key, i, j)
    decreases j
  {
    if j == i + 1 || turns[j - 1].key == key {
      assert turns[j - 1].now == LastReading(turns, key, i, j);
    }
    if j > i + 1 {
      OrderHasNoSetbacks(turns, key, i, j - 1);
    }
  }

  lemma StartInOrder(clock: real, key: string)
    ensures Timed(Start(clock)) && KeyWaitsInOrder(Start(clock), key)
  {
  }

  /** A caller whose calls do not overlap one another is held to its buckets and
    the rate, however the calls of others overlap. */
  lemma OneAtATimeWindowBound(cfg: Config, clock: real, steps: seq<Step>, w: World, key: string, i: nat, j: nat)
    requires Enabled(cfg) && OneAtATime(cfg, Start(clock), steps, key) && After(cfg, Start(clock), steps) == Some(w)
    requires i <= j < |w.turns| && w.turns[i].key == key && w.turns[j].key == key
    ensures Admitted(w.turns, key, i, j + 1) as real <=
              Bursts(cfg, 1 + FreshStarts(w.turns, Holdings(w.turns), key, i, j + 1)) +
              Earned(cfg, w.turns[j].now - w.turns[i].now)
  {
    hide *;
    StartInOrder(clock, key);
    TurnsAreARun(cfg, w);
    OneAtATimeKeepsOrder(cfg, Start(clock), steps, w, key);
    OrderHasNoSetbacks(w.turns, key, i, j + 1);
    AnyClockWindowBound(cfg, w.turns, key, i, j);
  }

  // -------------------------------------------- the clock alone is not enough

  /** The steps of a run so far, and the world they lead to. */
  lemma {:induction false} AfterOneMore(cfg: Config, w: World, steps: seq<Step>, v: World, step: Step)
    requires After(cfg, w, steps) == Some(v) && CanStep(cfg, v, step)
    ensures After(cfg, w, steps + [step]) == Some(Next(cfg, v, step))
    decreases |steps|
  {
    hide CanStep, Next;
    if steps == [] {
      assert [step][1..] == [];
      assert steps + [step] == [step];
    } else {
      AfterOneMore(cfg, Next(cfg, w, steps[0]), steps[1..], v, step);
      assert (steps + [step])[1..] == steps[1..] + [step];
    }
  }

  lemma ReachableNext(cfg: Config, w: World, step: Step)
    requires Reachable(cfg, w) && CanStep(cfg, w, step)
    ensures Reachable(cfg, Next(cfg, w, step))
  {
    hide CanStep, Next;
    var clock, steps :| After(cfg, Start(clock), steps) == Some(w);
    AfterOneMore(cfg, Start(clock), steps, w, step);
  }

  lemma ReadStep(cfg: Config, w: World, call: nat, key: string, at: real) returns (v: World)
    requires Reachable(cfg, w) && w.clock <= at && call !in w.waiting
    ensures Reachable(cfg, v) && v == World(at, w.waiting[call := Waiting(key, at)], w.turns, w.served)
  {
    hide Reachable;
    ReachableNext(cfg, w, Read(call, key, at));
    v := Next(cfg, w, Read(call, key, at));
  }

  /** Serving a call whose key is held, or that is the first to find the map with
    room and sweeps nothing it must keep. */
  lemma ServeStep(cfg: Config, w: World, call: nat) returns (v: World)
    requires Enabled(cfg) && Reachable(cfg, w) && call in w.waiting
    requires var held := Before(w.turns, |w.turns|);
             w.waiting[call].key in held || !Pressed(cfg, held, w.waiting[call].reading)
    ensures Reachable(cfg, v) && v.clock == w.clock && v.waiting == w.waiting - {call}
    ensures var held, key, now := Before(w.turns, |w.turns|), w.waiting[call].key, w.waiting[call].reading;
            var entry := Entry(cfg, held, key, now);
            var kept := if key in held then held else Live(cfg, held, now);
            v.turns == w.turns + [Turn(key, now, AnswerFor(cfg, entry), kept[key := Spend(entry)])]
  {
    hide Reachable, Entry, Pressed;
    var held, key, now := Before(w.turns, |w.turns|), w.waiting[call].key, w.waiting[call].reading;
    var entry := Entry(cfg, held, key, now);
    var kept := if key in held then held else Live(cfg, held, now);
    var step := Serve(call, w.clock, AnswerFor(cfg, entry), kept[key := Spend(entry)]);
    assert MadeRoom(cfg, held, key, kept, now);
    ReachableNext(cfg, w, step);
    v := Next(cfg, w, step);
  }

  lemma StartReachable(cfg: Config, clock: real)
    ensures Reachable(cfg, Start(clock))
  {
    assert After(cfg, Start(clock), []) == Some(Start(clock));
  }

  /** With one token a second and room for one, what a bucket found at `now` holds. */
  function Found(b: Bucket, now: real): real {
    if now > b.seen then (if b.tokens + now - b.seen > 1.0 then 1.0 else b.tokens + now - b.seen) else b.tokens
  }

  function Left(b: Bucket, now: real): Bucket {
    Bucket(if Found(b, now) >= 1.0 then Found(b, now) - 1.0 else Found(b, now), now)
  }

  /** The next turn when its key is held, and who else is. */
  lemma ServeHeld(cfg: Config, w: World, call: nat, b: Bucket) returns (v: World)
    requires Enabled(cfg) && cfg.rate == 1.0 && cfg.burst == 1.0 && Reachable(cfg, w) && call in w.waiting
    requires Before(w.turns, |w.turns|) == map[w.waiting[call].key := b]
    ensures Reachable(cfg, v) && v.clock == w.clock && v.waiting == w.waiting - {call}
    ensures |v.turns| == |w.turns| + 1 && w.turns <= v.turns
    ensures var turn, key, now := v.turns[|w.turns|], w.waiting[call].key, w.waiting[call].reading;
            && turn.key == key && turn.now == now && turn.after == map[key := Left(b, now)]
            && turn.answer.ok == (Found(b, now) >= 1.0)
  {
    hide Reachable, Live;
    v := ServeStep(cfg, w, call);
  }

  /** The next turn when no bucket is live. */
  lemma ServeFresh(cfg: Config, w: World, call: nat) returns (v: World)
    requires Enabled(cfg) && cfg.burst == 1.0 && cfg.maxKeys > 1 && Reachable(cfg, w) && call in w.waiting
    requires var held := Before(w.turns, |w.turns|);
             && |held| <= 1 && w.waiting[call].key !in held
             && forall k :: k in held ==> IsIdle(cfg, held[k], w.waiting[call].reading)
    ensures Reachable(cfg, v) && v.clock == w.clock && v.waiting == w.waiting - {call}
    ensures |v.turns| == |w.turns| + 1 && w.turns <= v.turns
    ensures var turn, key, now := v.turns[|w.turns|], w.waiting[call].key, w.waiting[call].reading;
            && turn.key == key && turn.now == now && turn.after == map[key := Bucket(0.0, now)]
            && turn.answer.ok
  {
    hide Reachable;
    v := ServeStep(cfg, w, call);
    assert Live(cfg, Before(w.turns, |w.turns|), w.waiting[call].reading) == map[];
  }

  const LONG_IDLE := Config(1.0, 1.0, 600.0, 10000)

  lemma FourRead() returns (w: World)
    ensures Reachable(LONG_IDLE, w) && w.turns == []
    ensures w.waiting == map[0 := Waiting("a", 0.0), 1 := Waiting("a", 0.0), 2 := Waiting("a", 1.0), 3 := Waiting("a", 1.0)]
  {
    hide Reachable;
    StartReachable(LONG_IDLE, 0.0);
    w := ReadStep(LONG_IDLE, Start(0.0), 0, "a", 0.0);
    w := ReadStep(LONG_IDLE, w, 1, "a", 0.0);
    w := ReadStep(LONG_IDLE, w, 2, "a", 1.0);
    w := ReadStep(LONG_IDLE, w, 3, "a", 1.0);
  }

  lemma TwoServed() returns (w: World)
    ensures Reachable(LONG_IDLE, w) && |w.turns| == 2 && w.waiting == map[1 := Waiting("a", 0.0), 3 := Waiting("a", 1.0)]
    ensures w.turns[0].key == w.turns[1].key == "a" && w.turns[0].now == 0.0 && w.turns[1].now == 1.0
    ensures w.turns[0].answer.ok && w.turns[1].answer.ok
    ensures "a" in w.turns[0].after && w.turns[1].after == map["a" := Bucket(0.0, 1.0)]
  {
    hide Reachable, Live, Pressed, Entry, Allows, IsIdle;
    var read := FourRead();
    var one := ServeFresh(LONG_IDLE, read, 0);
    assert Before(one.turns, 1) == map["a" := Bucket(0.0, 0.0)];
    w := ServeHeld(LONG_IDLE, one, 2, Bucket(0.0, 0.0));
    assert w.waiting == map[1 := Waiting("a", 0.0), 3 := Waiting("a", 1.0)];
  }

  /** Two calls read the clock at 0, two at 1, and they are served alternately:
    three of the four are admitted where burst + rate * 1 is two. */
  lemma OverlapExceedsWindowBound() returns (cfg: Config, w: World)
    ensures Enabled(cfg) && cfg.idle >= 0.0 && cfg.burst <= Earned(cfg, cfg.idle)
    ensures Reachable(cfg, w) && NoPressure(cfg, w.turns) && ReturnsInOrder(w.turns)
    ensures |w.turns| == 4 && (forall i :: 0 <= i < 4 ==> w.turns[i].key == "a")
    ensures w.turns[3].now - w.turns[0].now == 1.0 && Setbacks(w.turns, "a", 0, 4) == 1.0
    ensures Admitted(w.turns, "a", 0, 4) as real == 3.0 > cfg.burst + Earned(cfg, w.turns[3].now - w.turns[0].now)
  {
    hide Reachable, Live, Pressed, Entry, NoPressure, ReturnsInOrder, Admitted, Setbacks;
    cfg := LONG_IDLE;
    var half := TwoServed();
    var more := ServeHeld(cfg, half, 1, Bucket(0.0, 1.0));
    w := ServeHeld(cfg, more, 3, Bucket(0.0, 0.0));
    ReadThemOff(w.turns);
    OneKeyHeld(cfg, w.turns);
  }

  lemma OneKeyHeld(cfg: Config, turns: seq<Turn>)
    requires cfg.maxKeys > 0 && forall i :: 0 <= i < |turns| ==> turns[i].key == "a" && "a" in turns[i].after
    ensures NoPressure(cfg, turns) && ReturnsInOrder(turns)
  {
    forall i | 0 < i < |turns|
      ensures "a" in Before(turns, i)
    {
      assert "a" in turns[i - 1].after;
    }
  }

  lemma ReadThemOff(turns: seq<Turn>)
    requires |turns| == 4 && forall i :: 0 <= i < 4 ==> turns[i].key == "a"
    ensures Admitted(turns, "a", 0, 4) ==
            (if turns[0].answer.ok then 1 else 0) + (if turns[1].answer.ok then 1 else 0) +
            (if turns[2].answer.ok then 1 else 0) + (if turns[3].answer.ok then 1 else 0)
    ensures var back: (real, real) -> real := (a, b) => if a > b then a - b else 0.0;
            Setbacks(turns, "a", 0, 4) ==
            back(turns[0].now, turns[1].now) + back(turns[1].now, turns[2].now) + back(turns[2].now, turns[3].now)
  {
    assert Admitted(turns, "a", 0, 2) == Admitted(turns, "a", 0, 1) + (if turns[1].answer.ok then 1 else 0);
    assert Setbacks(turns, "a", 0, 2) == if turns[0].now > turns[1].now then turns[0].now - turns[1].now else 0.0;
    assert Setbacks(turns, "a", 0, 3) ==
           Setbacks(turns, "a", 0, 2) + if turns[1].now > turns[2].now then turns[1].now - turns[2].now else 0.0;
  }

  const SHORT_IDLE := Config(1.0, 1.0, 1.0, 10000)

  lemma OneForgotten() returns (w: World)
    ensures Reachable(SHORT_IDLE, w) && |w.turns| == 2 && w.waiting == map[1 := Waiting("a", 0.0)]
    ensures w.turns[0].key == "a" && w.turns[0].now == 0.0 && w.turns[0].after == map["a" := Bucket(0.0, 0.0)]
    ensures w.turns[1].key == "b" && w.turns[1].now == 2.0 && w.turns[1].after == map["b" := Bucket(0.0, 2.0)]
  {
    hide Reachable, Live, Pressed, Entry, Allows;
    StartReachable(SHORT_IDLE, 0.0);
    var one := ReadStep(SHORT_IDLE, Start(0.0), 0, "a", 0.0);
    var two := ReadStep(SHORT_IDLE, one, 1, "a", 0.0);
    var three := ReadStep(SHORT_IDLE, two, 2, "b", 2.0);
    var served := ServeFresh(SHORT_IDLE, three, 0);
    assert Before(served.turns, 1) == map["a" := Bucket(0.0, 0.0)];
    w := ServeFresh(SHORT_IDLE, served, 2);
    assert w.waiting == map[1 := Waiting("a", 0.0)];
  }

  /** A call that read the clock at 0 comes back after a call on another key, read
    at 2, has forgotten its bucket: it is admitted, although the bucket would
    have been empty and a bucket fills within the idle time. */
  lemma OverlapShowsForgetting() returns (cfg: Config, w: World)
    ensures Enabled(cfg) && cfg.idle >= 0.0 && cfg.burst <= Earned(cfg, cfg.idle)
    ensures Reachable(cfg, w) && NoPressure(cfg, w.turns) && |w.turns| == 3
    ensures w.turns[2].answer.ok && !Unforgetting(cfg, w.turns, 2).ok
  {
    cfg := SHORT_IDLE;
    var half := OneForgotten();
    w := ServeHeldOther(cfg, half, 1);
    RememberedEmpty(cfg, w.turns);
    hide Reachable;
  }

  lemma RememberedEmpty(cfg: Config, turns: seq<Turn>)
    requires cfg == SHORT_IDLE && |turns| == 3 && turns[0].key == turns[2].key == "a" && turns[1].key == "b"
    requires turns[0].now == turns[2].now == 0.0 && turns[1].now == 2.0
    ensures !Unforgetting(cfg, turns, 2).ok
  {
    assert Memory(cfg, turns, 1) == map["a" := Bucket(0.0, 0.0)];
    assert Memory(cfg, turns, 2)["a"] == Bucket(0.0, 0.0);
  }

  lemma ServeHeldOther(cfg: Config, w: World, call: nat) returns (v: World)
    requires Enabled(cfg) && cfg.burst == 1.0 && cfg.maxKeys > 1 && Reachable(cfg, w) && call in w.waiting
    requires |Before(w.turns, |w.turns|)| <= 1 && w.waiting[call].key !in Before(w.turns, |w.turns|)
    ensures Reachable(cfg, v) && |v.turns| == |w.turns| + 1 && w.turns <= v.turns
    ensures v.turns[|w.turns|].key == w.waiting[call].key && v.turns[|w.turns|].now == w.waiting[call].reading
    ensures v.turns[|w.turns|].answer.ok
  {
    hide Reachable, Live;
    v := ServeStep(cfg, w, call);
  }

  // ------------------------------------------------ every reading order occurs

  /** Calls waiting with the readings of `run`, turn by turn. */
  ghost predicate Awaits(w: World, run: seq<Turn>, done: nat, calls: set<nat>) {
    && done <= |run|
    && (forall i :: i in calls ==> done <= i < |run| && i in w.waiting && w.waiting[i] == Waiting(run[i].key, run[i].now))
    && (forall i :: i in w.waiting ==> i in calls)
  }

  lemma {:induction false} Earliest(run: seq<Turn>, calls: set<nat>) returns (first: nat)
    requires calls != {} && forall i :: i in calls ==> i < |run|
    ensures first in calls && forall i :: i in calls ==> run[first].now <= run[i].now
  {
    first := Pick(calls);
    var rest := calls - {first};
    assert forall i :: i in calls <==> i == first || i in rest;
    if rest != {} {
      var other := Earliest(run, rest);
      if run[other].now < run[first].now {
        first := other;
      }
    }
  }

  /** All calls of a run can read the clock before any is served. */
  lemma {:induction false} AllRead(cfg: Config, run: seq<Turn>, w: World, read: set<nat>, left: set<nat>) returns (v: World)
    requires Reachable(cfg, w) && w.turns == [] && Awaits(w, run, 0, read) && read !! left
    requires forall i :: i in left ==> i < |run| && w.clock <= run[i].now
    ensures Reachable(cfg, v) && v.turns == [] && Awaits(v, run, 0, read + left)
    decreases left
  {
    hide Reachable;
    if left == {} {
      assert read + left == read;
      v := w;
    } else {
      var first := Earliest(run, left);
      var u := ReadStep(cfg, w, first, run[first].key, run[first].now);
      v := AllRead(cfg, run, u, read + {first}, left - {first});
      assert read + {first} + (left - {first}) == read + left;
    }
  }

  lemma {:induction false} AllServed(cfg: Config, run: seq<Turn>, w: World, done: nat, calls: set<nat>) returns (v: World)
    requires IsRun(cfg, run) && Reachable(cfg, w) && done <= |run| && w.turns == run[..done]
    requires Awaits(w, run, done, calls) && forall i :: done <= i < |run| ==> i in calls
    ensures Reachable(cfg, v) && v.turns == run
    decreases |run| - done
  {
    hide Reachable, Allows;
    if done == |run| {
      v := w;
    } else {
      assert Before(w.turns, done) == Before(run, done);
      var step := Serve(done, w.clock, run[done].answer, run[done].after);
      ReachableNext(cfg, w, step);
      var u := Next(cfg, w, step);
      assert u.turns == run[..done + 1];
      v := AllServed(cfg, run, u, done + 1, calls - {done});
    }
  }

  function Indices(n: nat): (s: set<nat>)
    ensures forall i: nat :: i in s <==> i < n
  {
    if n == 0 then {} else Indices(n - 1) + {n - 1}
  }

  /** Every run, its readings in any order, is what some calls do over a clock that
    never goes back: nothing less than all of them is what `IsRun` describes. */
  lemma EveryRunIsReachable(cfg: Config, run: seq<Turn>) returns (w: World)
    requires IsRun(cfg, run)
    ensures Reachable(cfg, w) && w.turns == run
  {
    hide Reachable, IsRun;
    var all, clock := Indices(|run|), 0.0;
    if run != [] {
      assert 0 in all;
      var first := Earliest(run, all);
      clock := run[first].now;
    }
    StartReachable(cfg, clock);
    var v := AllRead(cfg, run, Start(clock), {}, all);
    assert {} + all == all;
    w := AllServed(cfg, run, v, 0, all);
  }
}
