/**
 * The circuit breaker in front of the Python service (backend/rust/src/main.rs).
 *
 * The value-level functions say what each critical section does to the breaker;
 * the class below them is the mutable object the service shares between requests.
 */
module PythonCircuit {
  import opened Common

  const USIZE_MAX: nat := 0xFFFF_FFFF_FFFF_FFFF
  const NANOS_PER_MILLI: nat := 1_000_000
  const U64_SIZE: nat := 0x1_0000_0000_0000_0000

  type Usize = n: nat | n <= USIZE_MAX

  // A reading of the monotone clock, in nanoseconds.
  type Instant = nat

  datatype CircuitState = Closed | Open | HalfOpen

  datatype Config = Config(
    enabled: bool,
    failureThreshold: Usize,
    resetMs: Usize,
    retryAttempts: Usize,
    fallbackToSubprocess: bool)
  {
    // The number of failures that opens the breaker; a configured 0 acts as 1.
    function Threshold(): (t: nat)
      ensures 1 <= t <= USIZE_MAX
    {
      if failureThreshold == 0 then 1 else failureThreshold
    }
  }

  datatype Breaker = Breaker(
    state: CircuitState,
    failureCount: Usize,
    openedAt: Option<Instant>,
    halfOpenInFlight: bool)

  const Fresh: Breaker := Breaker(Closed, 0, None, false)

  function ElapsedMs(now: Instant, since: Instant): nat {
    if now < since then 0 else (now - since) / NANOS_PER_MILLI % U64_SIZE
  }

  predicate ResetElapsed(b: Breaker, cfg: Config, now: Instant) {
    b.openedAt.None? || ElapsedMs(now, b.openedAt.value) >= cfg.resetMs
  }

  // The breaker after an admission request, and the state the caller observes.
  function AfterBeforeCall(b: Breaker, cfg: Config, now: Instant): (Breaker, CircuitState) {
    if !cfg.enabled then (b, Closed)
    else match b.state
      case Closed => (b, Closed)
      case Open =>
        if ResetElapsed(b, cfg, now)
        then (b.(state := HalfOpen, halfOpenInFlight := true), HalfOpen)
        else (b, Open)
      case HalfOpen =>
        if b.halfOpenInFlight then (b, Open)
        else (b.(halfOpenInFlight := true), HalfOpen)
  }

  function AfterSuccess(b: Breaker): Breaker {
    Fresh
  }

  function AfterFailure(b: Breaker, cfg: Config, now: Instant): Breaker {
    if !cfg.enabled then b
    else match b.state
      case HalfOpen => Breaker(Open, cfg.Threshold(), Some(now), false)
      case _ =>
        var count := if b.failureCount == USIZE_MAX then USIZE_MAX else b.failureCount + 1;
        if count >= cfg.Threshold()
        then Breaker(Open, count, Some(now), false)
        else b.(failureCount := count, halfOpenInFlight := false)
  }

  // A failure report counts only if the breaker is still in the state the
  // caller observed, or if the caller was the half-open probe.
  function AfterFailureReport(b: Breaker, cfg: Config, observed: CircuitState, now: Instant): Breaker {
    if cfg.enabled && (b.state == observed || observed == HalfOpen)
    then AfterFailure(b, cfg, now)
    else b
  }

  class PythonCircuitBreaker {
    var state: CircuitState
    var failureCount: Usize
    var openedAt: Option<Instant>
    var halfOpenInFlight: bool

    function View(): Breaker
      reads this
    {
      Breaker.Breaker(state, failureCount, openedAt, halfOpenInFlight)
    }

    constructor ()
      ensures View() == Fresh
    {
      state := Closed;
      failureCount := 0;
      openedAt := None;
      halfOpenInFlight := false;
    }

    method BeforeCall(cfg: Config, now: Instant) returns (observed: CircuitState)
      modifies this
      ensures (View(), observed) == AfterBeforeCall(old(View()), cfg, now)
    {
      if !cfg.enabled {
        return Closed;
      }
      match state {
        case Closed =>
          observed := Closed;
        case Open =>
          var resetElapsed := openedAt.None? || ElapsedMs(now, openedAt.value) >= cfg.resetMs;
          if resetElapsed {
            state := HalfOpen;
            halfOpenInFlight := true;
            observed := HalfOpen;
          } else {
            observed := Open;
          }
        case HalfOpen =>
          if halfOpenInFlight {
            observed := Open;
          } else {
            halfOpenInFlight := true;
            observed := HalfOpen;
          }
      }
    }

    method RecordSuccess()
      modifies this
      ensures View() == AfterSuccess(old(View()))
    {
      state := Closed;
      failureCount := 0;
      openedAt := None;
      halfOpenInFlight := false;
    }

    method RecordFailure(cfg: Config, now: Instant)
      modifies this
      ensures View() == AfterFailure(old(View()), cfg, now)
    {
      if !cfg.enabled {
        return;
      }
      match state {
        case HalfOpen =>
          state := Open;
          failureCount := cfg.Threshold();
          openedAt := Some(now);
          halfOpenInFlight := false;
        case _ =>
          failureCount := if failureCount == USIZE_MAX then USIZE_MAX else failureCount + 1;
          halfOpenInFlight := false;
          if failureCount >= cfg.Threshold() {
            state := Open;
            openedAt := Some(now);
          }
      }
    }

    // record_python_service_failure: the filter around RecordFailure.
    method ReportFailure(cfg: Config, observed: CircuitState, now: Instant)
      modifies this
      ensures View() == AfterFailureReport(old(View()), cfg, observed, now)
    {
      if !cfg.enabled {
        return;
      }
      if state == observed || observed == HalfOpen {
        RecordFailure(cfg, now);
      }
    }

    // What this call finds when it takes the lock after other calls have run.
    method Interfere(b: Breaker)
      modifies this
      ensures View() == b
    {
      state := b.state;
      failureCount := b.failureCount;
      openedAt := b.openedAt;
      halfOpenInFlight := b.halfOpenInFlight;
    }
  }
}
