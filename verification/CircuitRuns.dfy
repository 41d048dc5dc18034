/** Every interleaving of calls through one enabled breaker.

  A call is what `Client.Do` makes of it: one Allow and, if admitted, one later
  report that hands the ticket back.  Any number of calls overlap.  The log
  records what happened, and the counters inside the breaker are shown to be
  exactly what the log says about the current period. */
module CircuitRuns {
  import opened Breakers
  import opened Wrappers

  datatype Outcome = Success | Counted | Deterministic

  datatype Entry =
    | Admitted(call: nat, ticket: nat)
    | Refused(call: nat)
    | Reported(call: nat, ticket: nat, outcome: Outcome)

  datatype Step =
    | Call(call: nat, now: int)
    | Report(call: nat, outcome: Outcome, now: int)

  /** `waiting` holds the ticket of every call in flight; `kinds[e]` is the
    circuit state episode `e` was spent in. */
  datatype System = System(b: Fields, waiting: map<nat, nat>, log: seq<Entry>, kinds: seq<Circuit>)

  const START := System(FRESH, map[], [], [Closed])

  predicate CanStep(s: System, step: Step) {
    match step
    case Call(c, _) => c !in s.waiting
    case Report(c, _, _) => c in s.waiting
  }

  function Settle(s: System, b: Fields, waiting: map<nat, nat>, entry: Entry): System {
    System(b, waiting, s.log + [entry], if b.episode == s.b.episode then s.kinds else s.kinds + [b.state])
  }

  function ReportOf(cfg: Settings, b: Fields, ticket: nat, outcome: Outcome, now: int): Fields {
    match outcome
    case Success => SucceedOf(cfg, b, ticket)
    case Counted => FailOf(cfg, b, ticket, true, now)
    case Deterministic => FailOf(cfg, b, ticket, false, now)
  }

  function Next(cfg: Settings, s: System, step: Step): System
    requires CanStep(s, step)
  {
    match step
    case Call(c, now) =>
      var a := AllowOf(cfg, s.b, now);
      if a.admitted then Settle(s, a.after, s.waiting[c := a.ticket], Admitted(c, a.ticket))
      else Settle(s, a.after, s.waiting, Refused(c))
    case Report(c, outcome, now) =>
      Settle(s, ReportOf(cfg, s.b, s.waiting[c], outcome, now), s.waiting - {c}, Reported(c, s.waiting[c], outcome))
  }

  /** The system after a run, or None when some step of it was impossible. */
  function After(cfg: Settings, s: System, steps: seq<Step>): Option<System>
    decreases |steps|
  {
    if steps == [] then Some(s)
    else if CanStep(s, steps[0]) then After(cfg, Next(cfg, s, steps[0]), steps[1..])
    else None
  }

  // ---------------------------------------------------------------- the log

  /** The availability evidence of one episode, oldest first. */
  function Evidence(log: seq<Entry>, episode: nat): seq<Outcome> {
    if log == [] then []
    else
      var before, last := Evidence(log[..|log| - 1], episode), log[|log| - 1];
      if last.Reported? && last.ticket == episode && last.outcome != Deterministic
      then before + [last.outcome] else before
  }

  function Admissions(log: seq<Entry>, episode: nat): nat {
    if log == [] then 0
    else
      Admissions(log[..|log| - 1], episode) +
      (if log[|log| - 1].Admitted? && log[|log| - 1].ticket == episode then 1 else 0)
  }

  function Refusals(log: seq<Entry>): nat {
    if log == [] then 0
    else Refusals(log[..|log| - 1]) + (if log[|log| - 1].Refused? then 1 else 0)
  }

  /** How many counted failures end the evidence. */
  function FailureRun(evidence: seq<Outcome>): (n: nat)
    ensures n <= |evidence|
  {
    if evidence == [] || evidence[|evidence| - 1] != Counted then 0
    else 1 + FailureRun(evidence[..|evidence| - 1])
  }

  /** The last `n` pieces of evidence are all counted failures. */
  predicate EndsInFailures(evidence: seq<Outcome>, n: nat) {
    n <= |evidence| && forall i :: |evidence| - n <= i < |evidence| ==> evidence[i] == Counted
  }

  lemma {:induction false} FailureRunIsLongest(evidence: seq<Outcome>, n: nat)
    ensures EndsInFailures(evidence, n) <==> n <= FailureRun(evidence)
  {
    if n > 0 && evidence != [] {
      var before, last := evidence[..|evidence| - 1], evidence[|evidence| - 1];
      FailureRunIsLongest(before, n - 1);
      assert evidence == before + [last];
      assert EndsInFailures(evidence, n) <==> last == Counted && EndsInFailures(before, n - 1);
    }
  }

  lemma LogGrows(log: seq<Entry>, entry: Entry, e: nat)
    ensures Evidence(log + [entry], e) ==
              Evidence(log, e) +
              (if entry.Reported? && entry.ticket == e && entry.outcome != Deterministic then [entry.outcome] else [])
    ensures Admissions(log + [entry], e) ==
              Admissions(log, e) + (if entry.Admitted? && entry.ticket == e then 1 else 0)
    ensures Refusals(log + [entry]) == Refusals(log) + (if entry.Refused? then 1 else 0)
  {
  }

  lemma {:induction false} UnseenEpisode(log: seq<Entry>, e: nat)
    requires forall i :: 0 <= i < |log| && !log[i].Refused? ==> log[i].ticket < e
    ensures Evidence(log, e) == [] && Admissions(log, e) == 0
  {
    if log != [] {
      UnseenEpisode(log[..|log| - 1], e);
      assert !log[|log| - 1].Refused? ==> log[|log| - 1].ticket < e;
    }
  }

  // ---------------------------------------------------------- the invariant

  ghost predicate Tickets(s: System) {
    && (forall c :: c in s.waiting ==> s.waiting[c] <= s.b.episode)
    && (forall i :: 0 <= i < |s.log| && !s.log[i].Refused? ==> s.log[i].ticket <= s.b.episode)
  }

  ghost predicate Periods(cfg: Settings, s: System) {
    && |s.kinds| == s.b.episode + 1
    && s.kinds[s.b.episode] == s.b.state
    && (forall e :: 0 <= e < |s.kinds| && s.kinds[e] == HalfOpen ==> Admissions(s.log, e) <= cfg.halfOpenProbes)
    && (forall e :: 0 <= e < |s.kinds| && s.kinds[e] == Open ==> Admissions(s.log, e) == 0)
  }

  /** The counters say what the history of the current period says. */
  ghost predicate Counts(cfg: Settings, b: Fields, evidence: seq<Outcome>, admissions: nat, refusals: nat) {
    && b.transitions == b.episode
    && b.shortCircuit == refusals
    && match b.state
       case Closed =>
         && b.failures == FailureRun(evidence) < cfg.failureThreshold
         && b.probes == b.successes == 0
       case Open =>
         && evidence == []
         && b.probes == b.successes == 0
       case HalfOpen =>
         && b.successes == |evidence| < cfg.halfOpenProbes
         && (forall i :: 0 <= i < |evidence| ==> evidence[i] == Success)
         && b.probes == admissions
         && 1 <= b.probes
  }

  /** No call of the current period is out while the circuit is open. */
  ghost predicate Quiet(s: System) {
    s.b.state == Open ==> forall c :: c in s.waiting ==> s.waiting[c] < s.b.episode
  }

  ghost predicate Counters(cfg: Settings, s: System) {
    && Counts(cfg, s.b, Evidence(s.log, s.b.episode), Admissions(s.log, s.b.episode), Refusals(s.log))
    && Quiet(s)
  }

  ghost predicate Inv(cfg: Settings, s: System) {
    Tickets(s) && Periods(cfg, s) && Counters(cfg, s)
  }

  ghost predicate Usable(cfg: Settings) {
    cfg.failureThreshold > 0 && cfg.openFor > 0 && cfg.halfOpenProbes > 0
  }

  lemma StepKeepsPeriods(cfg: Settings, s: System, step: Step)
    requires Usable(cfg) && Inv(cfg, s) && CanStep(s, step)
    ensures Periods(cfg, Next(cfg, s, step))
  {
    hide Evidence, Admissions, Refusals, FailureRun;
    var t := Next(cfg, s, step);
    var entry := t.log[|s.log|];
    forall e: nat
      ensures Admissions(t.log, e) == Admissions(s.log, e) + (if entry.Admitted? && entry.ticket == e then 1 else 0)
    {
      LogGrows(s.log, entry, e);
    }
    if t.b.episode != s.b.episode {
      UnseenEpisode(s.log, t.b.episode);
    }
    assert forall e :: 0 <= e < |s.kinds| ==> t.kinds[e] == s.kinds[e];
  }

  lemma FailureRunGrows(evidence: seq<Outcome>, outcome: Outcome)
    ensures FailureRun(evidence + [outcome]) == if outcome == Counted then FailureRun(evidence) + 1 else 0
  {
  }

  lemma AllowCounts(cfg: Settings, b: Fields, evidence: seq<Outcome>, admissions: nat, refusals: nat, now: int)
    requires Usable(cfg) && Counts(cfg, b, evidence, admissions, refusals)
    ensures var a := AllowOf(cfg, b, now);
            if a.after.episode == b.episode then
              && Counts(cfg, a.after, evidence, admissions + (if a.admitted then 1 else 0), refusals + (if a.admitted then 0 else 1))
              && a.after.state == b.state
            else a.admitted && Counts(cfg, a.after, [], 1, refusals) && a.after.state == HalfOpen
  {
    hide FailureRun;
  }

  lemma SuccessCounts(cfg: Settings, b: Fields, evidence: seq<Outcome>, admissions: nat, refusals: nat)
    requires Usable(cfg) && Counts(cfg, b, evidence, admissions, refusals) && b.state != Open
    ensures var after := SucceedOf(cfg, b, b.episode);
            if after.episode == b.episode then Counts(cfg, after, evidence + [Success], admissions, refusals) && after.state == b.state
            else Counts(cfg, after, [], 0, refusals) && after.state == Closed
  {
    FailureRunGrows(evidence, Success);
    assert FailureRun([]) == 0;
    hide FailureRun;
  }

  lemma FailureCounts(cfg: Settings, b: Fields, evidence: seq<Outcome>, admissions: nat, refusals: nat, now: int)
    requires Usable(cfg) && Counts(cfg, b, evidence, admissions, refusals) && b.state != Open
    ensures var after := FailOf(cfg, b, b.episode, true, now);
            if after.episode == b.episode then Counts(cfg, after, evidence + [Counted], admissions, refusals) && after.state == b.state
            else Counts(cfg, after, [], 0, refusals) && after.state == Open
  {
    FailureRunGrows(evidence, Counted);
    hide FailureRun;
  }

  /** What a logged entry adds to the history of the period it leaves current. */
  lemma SettledHistory(s: System, b: Fields, waiting: map<nat, nat>, entry: Entry)
    requires Tickets(s) && b.episode >= s.b.episode
    ensures var t, e := Settle(s, b, waiting, entry), b.episode;
            var same := e == s.b.episode;
            && Evidence(t.log, e) ==
                 (if same then Evidence(s.log, e) else []) +
                 (if entry.Reported? && entry.ticket == e && entry.outcome != Deterministic then [entry.outcome] else [])
            && Admissions(t.log, e) ==
                 (if same then Admissions(s.log, e) else 0) + (if entry.Admitted? && entry.ticket == e then 1 else 0)
            && Refusals(t.log) == Refusals(s.log) + (if entry.Refused? then 1 else 0)
  {
    hide Evidence, Admissions, Refusals;
    LogGrows(s.log, entry, b.episode);
    if b.episode != s.b.episode {
      UnseenEpisode(s.log, b.episode);
    }
  }

  lemma CallKeepsCounters(cfg: Settings, s: System, c: nat, now: int)
    requires Usable(cfg) && Tickets(s) && Counters(cfg, s) && c !in s.waiting
    ensures Counters(cfg, Next(cfg, s, Call(c, now)))
  {
    hide Counts, Evidence, Admissions, Refusals;
    var a, t := AllowOf(cfg, s.b, now), Next(cfg, s, Call(c, now));
    AllowCounts(cfg, s.b, Evidence(s.log, s.b.episode), Admissions(s.log, s.b.episode), Refusals(s.log), now);
    SettledHistory(s, a.after, t.waiting, t.log[|s.log|]);
    assert Evidence(s.log, s.b.episode) + [] == Evidence(s.log, s.b.episode);
  }

  lemma ReportKeepsCounters(cfg: Settings, s: System, c: nat, outcome: Outcome, now: int)
    requires Usable(cfg) && Tickets(s) && Counters(cfg, s) && c in s.waiting
    ensures Counters(cfg, Next(cfg, s, Report(c, outcome, now)))
  {
    hide Counts, Evidence, Admissions, Refusals;
    var evidence, admissions, refusals := Evidence(s.log, s.b.episode), Admissions(s.log, s.b.episode), Refusals(s.log);
    var t := Next(cfg, s, Report(c, outcome, now));
    if outcome == Deterministic || s.waiting[c] != s.b.episode {
      assert t.b == s.b && evidence + [] == evidence;
    } else {
      if outcome == Success {
        SuccessCounts(cfg, s.b, evidence, admissions, refusals);
      } else {
        FailureCounts(cfg, s.b, evidence, admissions, refusals, now);
      }
    }
    SettledHistory(s, t.b, t.waiting, t.log[|s.log|]);
  }

  lemma StepKeepsInv(cfg: Settings, s: System, step: Step)
    requires Usable(cfg) && Inv(cfg, s) && CanStep(s, step)
    ensures Inv(cfg, Next(cfg, s, step))
  {
    StepKeepsPeriods(cfg, s, step);
    match step
    case Call(c, now) => CallKeepsCounters(cfg, s, c, now);
    case Report(c, outcome, now) => ReportKeepsCounters(cfg, s, c, outcome, now);
  }

  lemma {:induction false} RunKeepsInv(cfg: Settings, s: System, steps: seq<Step>)
    requires Usable(cfg) && Inv(cfg, s)
    ensures After(cfg, s, steps).Some? ==> Inv(cfg, After(cfg, s, steps).value)
    decreases |steps|
  {
    if steps != [] && CanStep(s, steps[0]) {
      StepKeepsInv(cfg, s, steps[0]);
      RunKeepsInv(cfg, Next(cfg, s, steps[0]), steps[1..]);
    }
  }

  /** A system some interleaving from a new breaker reaches. */
  ghost predicate Reachable(cfg: Settings, s: System) {
    exists steps :: After(cfg, START, steps) == Some(s)
  }

  lemma ReachableInv(cfg: Settings, s: System)
    requires Usable(cfg) && Reachable(cfg, s)
    ensures Inv(cfg, s)
  {
    var steps :| After(cfg, START, steps) == Some(s);
    RunKeepsInv(cfg, START, steps);
  }

  // ------------------------------------------------------------ the results

  ghost predicate CurrentReport(s: System, step: Step, outcome: Outcome) {
    step.Report? && step.outcome == outcome && step.call in s.waiting && s.waiting[step.call] == s.b.episode
  }

  lemma CurrentReportFinds(cfg: Settings, s: System, step: Step, outcome: Outcome)
    requires Usable(cfg) && Reachable(cfg, s) && CanStep(s, step) && CurrentReport(s, step, outcome) && outcome != Deterministic
    ensures s.b.state != Open
    ensures Evidence(Next(cfg, s, step).log, s.b.episode) == Evidence(s.log, s.b.episode) + [outcome]
    ensures Counts(cfg, s.b, Evidence(s.log, s.b.episode), Admissions(s.log, s.b.episode), Refusals(s.log))
  {
    ReachableInv(cfg, s);
    hide Reachable, Tickets, Periods, Counts, Evidence, Admissions, Refusals;
    LogGrows(s.log, Next(cfg, s, step).log[|s.log|], s.b.episode);
  }

  lemma FailureOpens(cfg: Settings, b: Fields, evidence: seq<Outcome>, admissions: nat, refusals: nat, now: int)
    requires Usable(cfg) && Counts(cfg, b, evidence, admissions, refusals) && b.state != Open
    ensures var after := FailOf(cfg, b, b.episode, true, now);
            && (after.state == Open <==> b.state == HalfOpen || EndsInFailures(evidence + [Counted], cfg.failureThreshold))
            && (after.state == Open ==> after.openedAt == now)
  {
    FailureRunGrows(evidence, Counted);
    FailureRunIsLongest(evidence + [Counted], cfg.failureThreshold);
    hide FailureRun, EndsInFailures;
  }

  /** The circuit opens on a counted failure of a current half-open probe, or of
    a current closed-period call when it completes a run of FailureThreshold
    counted failures with no success between them; on nothing else. */
  lemma OpensExactlyWhen(cfg: Settings, s: System, step: Step)
    requires Usable(cfg) && Reachable(cfg, s) && CanStep(s, step)
    ensures var t := Next(cfg, s, step);
            (s.b.state != Open && t.b.state == Open) <==>
            CurrentReport(s, step, Counted) &&
            (s.b.state == HalfOpen ||
             EndsInFailures(Evidence(t.log, s.b.episode), cfg.failureThreshold))
    ensures var t := Next(cfg, s, step);
            s.b.state != Open && t.b.state == Open ==> t.b.openedAt == step.now
  {
    hide Reachable, Evidence, EndsInFailures, Counts;
    if CurrentReport(s, step, Counted) {
      CurrentReportFinds(cfg, s, step, Counted);
      FailureOpens(cfg, s.b, Evidence(s.log, s.b.episode), Admissions(s.log, s.b.episode), Refusals(s.log), step.now);
    }
  }

  lemma SuccessCloses(cfg: Settings, b: Fields, evidence: seq<Outcome>, admissions: nat, refusals: nat)
    requires Usable(cfg) && Counts(cfg, b, evidence, admissions, refusals) && b.state == HalfOpen
    ensures SucceedOf(cfg, b, b.episode).state == Closed <==> evidence + [Success] == seq(cfg.halfOpenProbes, _ => Success)
  {
  }

  /** The circuit closes on the success of a current half-open probe that makes
    HalfOpenProbes successes in the period; on nothing else. */
  lemma ClosesExactlyWhen(cfg: Settings, s: System, step: Step)
    requires Usable(cfg) && Reachable(cfg, s) && CanStep(s, step)
    ensures var t := Next(cfg, s, step);
            (s.b.state != Closed && t.b.state == Closed) <==>
            s.b.state == HalfOpen && CurrentReport(s, step, Success) &&
            Evidence(t.log, s.b.episode) == seq(cfg.halfOpenProbes, _ => Success)
  {
    hide Reachable, Evidence, Counts;
    if CurrentReport(s, step, Success) {
      CurrentReportFinds(cfg, s, step, Success);
      if s.b.state == HalfOpen {
        SuccessCloses(cfg, s.b, Evidence(s.log, s.b.episode), Admissions(s.log, s.b.episode), Refusals(s.log));
      }
    }
  }

  /** Half-open is entered only from an open circuit whose window has passed, by
    the call that then becomes the first probe. */
  lemma ProbesExactlyWhen(cfg: Settings, s: System, step: Step)
    requires Usable(cfg) && Reachable(cfg, s) && CanStep(s, step)
    ensures var t := Next(cfg, s, step);
            (s.b.state != HalfOpen && t.b.state == HalfOpen) <==>
            s.b.state == Open && step.Call? && step.now >= s.b.openedAt + cfg.openFor
    ensures var t := Next(cfg, s, step);
            s.b.state != HalfOpen && t.b.state == HalfOpen ==>
              t.waiting == s.waiting[step.call := t.b.episode] && Admissions(t.log, t.b.episode) == 1
  {
    ReachableInv(cfg, s);
    StepKeepsInv(cfg, s, step);
    var t := Next(cfg, s, step);
    if t.b.episode != s.b.episode {
      UnseenEpisode(s.log, t.b.episode);
      LogGrows(s.log, t.log[|s.log|], t.b.episode);
    }
  }

  /** A report from an earlier period changes nothing. */
  lemma StaleReportsIgnored(cfg: Settings, s: System, c: nat, outcome: Outcome, now: int)
    requires c in s.waiting && s.waiting[c] != s.b.episode
    ensures Next(cfg, s, Report(c, outcome, now)).b == s.b
  {
  }

  /** Closed holds fewer than FailureThreshold failures, an open circuit has no
    current call in flight, and no half-open period, past or present, admitted
    more than HalfOpenProbes calls. */
  lemma PeriodBounds(cfg: Settings, s: System)
    requires Usable(cfg) && Reachable(cfg, s)
    ensures s.b.state == Closed ==> s.b.failures < cfg.failureThreshold
    ensures s.b.state == Open ==> forall c :: c in s.waiting ==> s.waiting[c] != s.b.episode
    ensures |s.kinds| == s.b.episode + 1 == s.b.transitions + 1
    ensures forall e :: 0 <= e < |s.kinds| && s.kinds[e] == HalfOpen ==> Admissions(s.log, e) <= cfg.halfOpenProbes
    ensures forall e :: 0 <= e < |s.kinds| && s.kinds[e] == Open ==> Admissions(s.log, e) == 0
    ensures s.b.shortCircuit == Refusals(s.log)
  {
    ReachableInv(cfg, s);
  }

  /** What a step inside the open window may do: refuse a call, or take a late
    report that changes nothing. */
  lemma OpenStep(cfg: Settings, s: System, step: Step)
    requires Usable(cfg) && Inv(cfg, s) && s.b.state == Open && CanStep(s, step)
    requires step.now < s.b.openedAt + cfg.openFor
    ensures var t := Next(cfg, s, step);
            && t.b.(shortCircuit := 0) == s.b.(shortCircuit := 0)
            && t.waiting.Keys <= s.waiting.Keys
            && |t.log| == |s.log| + 1 && s.log <= t.log && !t.log[|s.log|].Admitted?
  {
    hide Tickets, Periods, Evidence, Admissions, Refusals;
    assert step.Report? ==> s.waiting[step.call] != s.b.episode;
  }

  lemma {:induction false} OpenWindowFrom(cfg: Settings, s: System, steps: seq<Step>)
    requires Usable(cfg) && Inv(cfg, s) && s.b.state == Open
    requires forall i :: 0 <= i < |steps| ==> steps[i].now < s.b.openedAt + cfg.openFor
    requires After(cfg, s, steps).Some?
    ensures var t := After(cfg, s, steps).value;
            && t.b.(shortCircuit := 0) == s.b.(shortCircuit := 0)
            && t.waiting.Keys <= s.waiting.Keys
            && s.log <= t.log
            && forall i :: |s.log| <= i < |t.log| ==> !t.log[i].Admitted?
    decreases |steps|
  {
    hide Next, Inv, CanStep, Usable;
    if steps != [] {
      var u := Next(cfg, s, steps[0]);
      OpenStep(cfg, s, steps[0]);
      StepKeepsInv(cfg, s, steps[0]);
      OpenWindowFrom(cfg, u, steps[1..]);
    }
  }

  /** Until OpenFor has passed since opening, no run of steps of any kind ends,
    extends or shortens the open window, and nothing is admitted.
    (`ProbesExactlyWhen` says the first call after it is.) */
  lemma OpenWindowHolds(cfg: Settings, s: System, steps: seq<Step>)
    requires Usable(cfg) && Reachable(cfg, s) && s.b.state == Open
    requires forall i :: 0 <= i < |steps| ==> steps[i].now < s.b.openedAt + cfg.openFor
    requires After(cfg, s, steps).Some?
    ensures var t := After(cfg, s, steps).value;
            && t.b.(shortCircuit := 0) == s.b.(shortCircuit := 0)
            && t.waiting.Keys <= s.waiting.Keys
            && s.log <= t.log
            && forall i :: |s.log| <= i < |t.log| ==> !t.log[i].Admitted?
  {
    hide *;
    ReachableInv(cfg, s);
    OpenWindowFrom(cfg, s, steps);
  }

  // ------------------------------------------- a half-open circuit can wedge

  ghost predicate InFlight(s: System) {
    exists c :: c in s.waiting && s.waiting[c] == s.b.episode
  }

  /** Every continuation leaves the circuit in the same half-open period. */
  ghost predicate Wedged(cfg: Settings, s: System) {
    forall steps ::
      After(cfg, s, steps).Some? ==>
        After(cfg, s, steps).value.b.state == HalfOpen && After(cfg, s, steps).value.b.episode == s.b.episode
  }

  lemma {:induction false} NoProbesLeftWedges(cfg: Settings, s: System, steps: seq<Step>)
    requires Usable(cfg) && s.b.state == HalfOpen && s.b.probes >= cfg.halfOpenProbes && !InFlight(s)
    requires After(cfg, s, steps).Some?
    ensures After(cfg, s, steps).value.b.state == HalfOpen && After(cfg, s, steps).value.b.episode == s.b.episode
    decreases |steps|
  {
    if steps != [] {
      NoProbesLeftWedges(cfg, Next(cfg, s, steps[0]), steps[1..]);
    }
  }

  lemma FreshCall(waiting: map<nat, nat>) returns (c: nat)
    ensures c !in waiting
  {
    var keys := waiting.Keys;
    c := 0;
    while keys != {}
      invariant forall k :: k in waiting && k !in keys ==> k < c
    {
      var k :| k in keys;
      keys := keys - {k};
      if c <= k {
        c := k + 1;
      }
    }
  }

  /** A probe that ends in a deterministic failure never gives its slot back, so
    a half-open circuit is stuck for ever exactly when its probes are used up
    and none of them is still in flight. */
  lemma HalfOpenWedgesExactlyWhen(cfg: Settings, s: System)
    requires Usable(cfg) && s.b.state == HalfOpen
    ensures Wedged(cfg, s) <==> s.b.probes >= cfg.halfOpenProbes && !InFlight(s)
  {
    if s.b.probes >= cfg.halfOpenProbes && !InFlight(s) {
      forall steps | After(cfg, s, steps).Some?
        ensures After(cfg, s, steps).value.b.state == HalfOpen && After(cfg, s, steps).value.b.episode == s.b.episode
      {
        NoProbesLeftWedges(cfg, s, steps);
      }
    } else if InFlight(s) {
      var c :| c in s.waiting && s.waiting[c] == s.b.episode;
      var t := Next(cfg, s, Report(c, Counted, 0));
      assert [Report(c, Counted, 0)][1..] == [];
      assert After(cfg, s, [Report(c, Counted, 0)]) == Some(t);
    } else {
      var c := FreshCall(s.waiting);
      var steps := [Call(c, 0), Report(c, Counted, 0)];
      var t := Next(cfg, s, steps[0]);
      assert steps[1..] == [steps[1]] && [steps[1]][1..] == [];
      assert After(cfg, t, steps[1..]) == Some(Next(cfg, t, steps[1]));
      assert After(cfg, s, steps) == Some(Next(cfg, t, steps[1]));
    }
  }

  lemma {:induction false} AfterOneMore(cfg: Settings, s: System, steps: seq<Step>, t: System, step: Step)
    requires After(cfg, s, steps) == Some(t) && CanStep(t, step)
    ensures After(cfg, s, steps + [step]) == Some(Next(cfg, t, step))
    decreases |steps|
  {
    hide CanStep, Next;
    if steps == [] {
      assert [step][1..] == [];
      assert steps + [step] == [step];
    } else {
      AfterOneMore(cfg, Next(cfg, s, steps[0]), steps[1..], t, step);
      assert (steps + [step])[1..] == steps[1..] + [step];
    }
  }

  lemma ReachableNext(cfg: Settings, s: System, step: Step)
    requires Reachable(cfg, s) && CanStep(s, step)
    ensures Reachable(cfg, Next(cfg, s, step))
  {
    hide CanStep, Next;
    var steps :| After(cfg, START, steps) == Some(s);
    AfterOneMore(cfg, START, steps, s, step);
  }

  /** One call by itself, admitted and reported. */
  lemma OneCall(cfg: Settings, s: System, now: int, outcome: Outcome) returns (t: System)
    requires Reachable(cfg, s) && s.waiting == map[] && AllowOf(cfg, s.b, now).admitted
    ensures Reachable(cfg, t) && t.waiting == map[]
    ensures var a := AllowOf(cfg, s.b, now);
            t.b == ReportOf(cfg, a.after, a.ticket, outcome, now)
  {
    hide Reachable, AllowOf, ReportOf;
    ReachableNext(cfg, s, Call(0, now));
    var u := Next(cfg, s, Call(0, now));
    ReachableNext(cfg, u, Report(0, outcome, now));
    t := Next(cfg, u, Report(0, outcome, now));
  }

  lemma {:induction false} FailedTimes(cfg: Settings, n: nat) returns (s: System)
    requires Usable(cfg) && n <= cfg.failureThreshold
    ensures Reachable(cfg, s) && s.waiting == map[]
    ensures if n == cfg.failureThreshold then s.b.state == Open && s.b.openedAt == 0 else s.b.state == Closed && s.b.failures == n
  {
    hide Reachable;
    if n == 0 {
      StartIsReachable(cfg);
      s := START;
    } else {
      var before := FailedTimes(cfg, n - 1);
      s := OneCall(cfg, before, 0, Counted);
    }
  }

  lemma StartIsReachable(cfg: Settings)
    ensures Reachable(cfg, START)
  {
    assert After(cfg, START, []) == Some(START);
  }

  lemma {:induction false} ProbedTimes(cfg: Settings, n: nat) returns (s: System)
    requires Usable(cfg) && 1 <= n <= cfg.halfOpenProbes
    ensures Reachable(cfg, s) && s.waiting == map[] && s.b.state == HalfOpen && s.b.probes == n
  {
    hide Reachable;
    var before: System;
    if n == 1 {
      before := FailedTimes(cfg, cfg.failureThreshold);
    } else {
      before := ProbedTimes(cfg, n - 1);
    }
    s := OneCall(cfg, before, cfg.openFor, Deterministic);
  }

  /** It happens under every usable setting: FailureThreshold counted failures,
    then HalfOpenProbes probes that each end in, say, a rejected credential. */
  lemma WedgeIsReachable(cfg: Settings) returns (s: System)
    requires Usable(cfg)
    ensures Reachable(cfg, s) && s.b.state == HalfOpen && Wedged(cfg, s)
  {
    hide Reachable, Wedged;
    s := ProbedTimes(cfg, cfg.halfOpenProbes);
    HalfOpenWedgesExactlyWhen(cfg, s);
  }

  // ---------------------------------------------------------- switched off

  lemma {:induction false} DisabledFrom(cfg: Settings, s: System, steps: seq<Step>, t: System)
    requires cfg.failureThreshold <= 0 && After(cfg, s, steps) == Some(t)
    ensures t.b == s.b
    ensures forall e :: e in t.log && e.Refused? ==> e in s.log
    decreases |steps|
  {
    if steps != [] {
      DisabledFrom(cfg, Next(cfg, s, steps[0]), steps[1..], t);
    }
  }

  /** A threshold of zero or less switches the breaker off: over every run, every
    call is admitted and the breaker stays as it was made. */
  lemma DisabledAdmitsEveryCall(cfg: Settings, steps: seq<Step>, s: System)
    requires cfg.failureThreshold <= 0 && After(cfg, START, steps) == Some(s)
    ensures s.b == Fields(0, Closed, 0, 0, 0, 0, 0, 0)
    ensures forall e :: e in s.log ==> !e.Refused?
    ensures forall now :: AllowOf(cfg, s.b, now).admitted
  {
    DisabledFrom(cfg, START, steps, s);
  }
}
