/** The circuit breaker of internal/adapters/httpx/breaker.go.

  `Breaker` is the Go object: its fields are what the mutex guards, and every
  exported method takes the mutex for its whole body, so a method is one atomic
  step.  Each method is proved against a function from the old field values to
  the new ones; what those functions mean over every interleaving of calls is
  proved in `CircuitRuns`.  Instants and durations are integers (nanoseconds). */
module Breakers {
  datatype Circuit = Closed | Open | HalfOpen

  datatype Settings = Settings(failureThreshold: int, openFor: int, halfOpenProbes: int)

  const DEFAULT_OPEN_FOR := 30_000_000_000

  /** The mutex-guarded fields, as a value. */
  datatype Fields = Fields(
    episode: nat, state: Circuit, failures: nat, probes: nat, successes: nat,
    openedAt: int, transitions: nat, shortCircuit: nat)

  /** What Allow answers, and what it leaves behind. */
  datatype Admission = Admission(after: Fields, admitted: bool, ticket: nat)

  predicate Enabled(cfg: Settings) {
    cfg.failureThreshold > 0
  }

  predicate WellFormed(cfg: Settings) {
    cfg.openFor > 0 && cfg.halfOpenProbes > 0
  }

  function Defaulted(raw: Settings): (cfg: Settings)
    ensures WellFormed(cfg) && cfg.failureThreshold == raw.failureThreshold
    ensures cfg.openFor == raw.openFor || (raw.openFor <= 0 && cfg.openFor == DEFAULT_OPEN_FOR)
    ensures cfg.halfOpenProbes == raw.halfOpenProbes || (raw.halfOpenProbes <= 0 && cfg.halfOpenProbes == 1)
    ensures WellFormed(raw) ==> cfg == raw
  {
    raw.(halfOpenProbes := if raw.halfOpenProbes <= 0 then 1 else raw.halfOpenProbes,
         openFor := if raw.openFor <= 0 then DEFAULT_OPEN_FOR else raw.openFor)
  }

  const FRESH := Fields(0, Closed, 0, 0, 0, 0, 0, 0)

  /** Every transition starts a new episode. */
  function Transition(b: Fields, to: Circuit): Fields {
    b.(state := to, transitions := b.transitions + 1, episode := b.episode + 1)
  }

  function AllowOf(cfg: Settings, b: Fields, now: int): Admission {
    if !Enabled(cfg) then Admission(b, true, 0)
    else match b.state
      case Closed => Admission(b, true, b.episode)
      case Open =>
        if now - b.openedAt < cfg.openFor then
          Admission(b.(shortCircuit := b.shortCircuit + 1), false, 0)
        else
          var probing := Transition(b, HalfOpen).(probes := 1, successes := 0);
          Admission(probing, true, probing.episode)
      case HalfOpen =>
        if b.probes >= cfg.halfOpenProbes then
          Admission(b.(shortCircuit := b.shortCircuit + 1), false, 0)
        else
          Admission(b.(probes := b.probes + 1), true, b.episode)
  }

  function SucceedOf(cfg: Settings, b: Fields, ticket: nat): Fields {
    if !Enabled(cfg) || ticket != b.episode then b
    else if b.state == HalfOpen then
      if b.successes + 1 >= cfg.halfOpenProbes then
        Transition(b, Closed).(failures := 0, probes := 0, successes := 0)
      else
        b.(successes := b.successes + 1)
    else b.(failures := 0)
  }

  function Tripped(b: Fields, now: int): Fields {
    Transition(b, Open).(openedAt := now, probes := 0, successes := 0)
  }

  function FailOf(cfg: Settings, b: Fields, ticket: nat, retryable: bool, now: int): Fields {
    if !Enabled(cfg) || !retryable || ticket != b.episode then b
    else if b.state == HalfOpen then Tripped(b, now)
    else
      var counted := b.(failures := b.failures + 1);
      if counted.failures >= cfg.failureThreshold then Tripped(counted, now) else counted
  }

  class Breaker {
    const settings: Settings
    var episode: nat
    var state: Circuit
    var failures: nat
    var probes: nat
    var successes: nat
    var openedAt: int
    var transitions: nat
    var shortCircuit: nat

    function View(): Fields
      reads this
    {
      Fields(episode, state, failures, probes, successes, openedAt, transitions, shortCircuit)
    }

    constructor (raw: Settings)
      ensures settings == Defaulted(raw) && View() == FRESH
    {
      var cfg := raw;
      if cfg.halfOpenProbes <= 0 {
        cfg := cfg.(halfOpenProbes := 1);
      }
      if cfg.openFor <= 0 {
        cfg := cfg.(openFor := DEFAULT_OPEN_FOR);
      }
      settings := cfg;
      episode, state, failures, probes, successes := 0, Closed, 0, 0, 0;
      openedAt, transitions, shortCircuit := 0, 0, 0;
    }

    method MoveTo(to: Circuit)
      modifies this
      ensures View() == Transition(old(View()), to)
    {
      state := to;
      transitions := transitions + 1;
      episode := episode + 1;
    }

    method Allow(now: int) returns (admitted: bool, ticket: nat)
      modifies this
      ensures Admission(View(), admitted, ticket) == AllowOf(settings, old(View()), now)
    {
      if settings.failureThreshold <= 0 {
        return true, 0;
      }
      match state {
        case Closed =>
          return true, episode;
        case Open =>
          if now - openedAt < settings.openFor {
            shortCircuit := shortCircuit + 1;
            return false, 0;
          }
          MoveTo(HalfOpen);
          probes := 1;
          successes := 0;
          return true, episode;
        case HalfOpen =>
          if probes >= settings.halfOpenProbes {
            shortCircuit := shortCircuit + 1;
            return false, 0;
          }
          probes := probes + 1;
          return true, episode;
      }
    }

    method Succeed(ticket: nat)
      modifies this
      ensures View() == SucceedOf(settings, old(View()), ticket)
    {
      if settings.failureThreshold <= 0 || ticket != episode {
        return;
      }
      if state == HalfOpen {
        successes := successes + 1;
        if successes >= settings.halfOpenProbes {
          MoveTo(Closed);
          failures, probes, successes := 0, 0, 0;
        }
      } else {
        failures := 0;
      }
    }

    method Fail(ticket: nat, retryable: bool, now: int)
      modifies this
      ensures View() == FailOf(settings, old(View()), ticket, retryable, now)
    {
      if settings.failureThreshold <= 0 || !retryable || ticket != episode {
        return;
      }
      if state == HalfOpen {
        MoveTo(Open);
        openedAt := now;
        probes, successes := 0, 0;
      } else {
        failures := failures + 1;
        if failures >= settings.failureThreshold {
          MoveTo(Open);
          openedAt := now;
          probes, successes := 0, 0;
        }
      }
    }

    /** The state a caller would meet: it is Open exactly when the next Allow at
      the same instant would be refused by an open circuit. */
    method State(now: int) returns (met: Circuit)
      ensures met == Open <==>
                Enabled(settings) && state == Open && !AllowOf(settings, View(), now).admitted
      ensures Enabled(settings) && AllowOf(settings, View(), now).admitted ==>
                met == AllowOf(settings, View(), now).after.state
      ensures !Enabled(settings) ==> met == Closed
      ensures Enabled(settings) && state != Open ==> met == state
    {
      if settings.failureThreshold <= 0 {
        return Closed;
      }
      if state == Open && now - openedAt >= settings.openFor {
        return HalfOpen;
      }
      return state;
    }
  }
}
